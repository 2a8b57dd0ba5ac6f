/**
 The per-cell environment overlay (internal/cellconfig/envoverlay.go).
 */
module EnvOverlay {
  import opened Wrappers
  import opened Text

  // ----- Merging -----

  /** The key of an entry: what strings.Cut leaves before the first '=', or all of it. */
  function KeyOf(entry: string): string {
    if entry == "" || entry[0] == '=' then "" else [entry[0]] + KeyOf(entry[1..])
  }

  /** An entry is its key, and its value behind the first '='. */
  lemma {:induction false} KeyOfEntry(k: string, value: string)
    requires '=' !in k
    ensures KeyOf(k + "=" + value) == k && KeyOf(k) == k
  {
    if k == "" {
      assert (k + "=" + value)[0] == '=';
    } else {
      assert (k + "=" + value)[1..] == k[1..] + "=" + value;
      KeyOfEntry(k[1..], value);
    }
  }

  ghost function KeysOf(env: seq<string>): set<string> {
    set e | e in env :: KeyOf(e)
  }

  /** The entries whose key is not dropped, in order. */
  ghost function Without(env: seq<string>, dropped: set<string>): seq<string> {
    if env == [] then []
    else
      var last := env[|env| - 1];
      Without(env[..|env| - 1], dropped) + if KeyOf(last) in dropped then [] else [last]
  }

  /** MergeEnv as a function: surviving entries first, then the overrides. */
  ghost function Merge(spec: seq<string>, over: seq<string>): seq<string> {
    Without(spec, KeysOf(over)) + over
  }

  method MergeEnv(spec: seq<string>, over: seq<string>) returns (r: seq<string>)
    ensures r == Merge(spec, over)
  {
    if |over| == 0 {
      WithoutNothing(spec);
      assert KeysOf(over) == {};
      return spec;
    }
    var keys: set<string> := {};
    for i := 0 to |over|
      invariant keys == KeysOf(over[..i])
    {
      keys := keys + {KeyOf(over[i])};
      assert over[..i + 1] == over[..i] + [over[i]];
    }
    assert over[..|over|] == over;
    var merged := [];
    for i := 0 to |spec|
      invariant merged == Without(spec[..i], keys)
    {
      if KeyOf(spec[i]) !in keys {
        merged := merged + [spec[i]];
      }
      assert spec[..i + 1][..i] == spec[..i];
    }
    assert spec[..|spec|] == spec;
    r := merged + over;
  }

  lemma {:induction false} WithoutNothing(env: seq<string>)
    ensures Without(env, {}) == env
  {
    if env != [] {
      WithoutNothing(env[..|env| - 1]);
    }
  }

  lemma {:induction false} WithoutConcat(a: seq<string>, b: seq<string>, dropped: set<string>)
    ensures Without(a + b, dropped) == Without(a, dropped) + Without(b, dropped)
  {
    if b == [] {
      assert a + b == a;
    } else {
      assert (a + b)[..|a + b| - 1] == a + b[..|b| - 1];
      WithoutConcat(a, b[..|b| - 1], dropped);
    }
  }

  lemma {:induction false} WithoutTwice(env: seq<string>, d: set<string>, d': set<string>)
    ensures Without(Without(env, d), d') == Without(env, d + d')
  {
    if env != [] {
      var init, last := env[..|env| - 1], env[|env| - 1];
      WithoutTwice(init, d, d');
      if KeyOf(last) !in d {
        WithoutConcat(Without(init, d), [last], d');
        assert [last][..0] == [];
        assert Without([last], d') == if KeyOf(last) in d' then [] else [last];
      } else {
        assert Without(env, d) == Without(init, d);
      }
    }
  }

  lemma {:induction false} WithoutOwnKeys(env: seq<string>, d: set<string>)
    requires KeysOf(env) <= d
    ensures Without(env, d) == []
  {
    if env != [] {
      assert KeyOf(env[|env| - 1]) in KeysOf(env);
      assert KeysOf(env[..|env| - 1]) <= KeysOf(env);
      WithoutOwnKeys(env[..|env| - 1], d);
    }
  }

  /** Which entries survive. */
  lemma {:induction false} WithoutKeeps(env: seq<string>, d: set<string>, e: string)
    ensures e in Without(env, d) <==> e in env && KeyOf(e) !in d
  {
    if env != [] {
      WithoutKeeps(env[..|env| - 1], d, e);
    }
  }

  lemma MergedKeys(b: seq<string>, c: seq<string>)
    ensures KeysOf(Merge(b, c)) == KeysOf(b) + KeysOf(c)
  {
    forall k | k in KeysOf(b) + KeysOf(c) ensures k in KeysOf(Merge(b, c)) {
      if k in KeysOf(c) {
        var e :| e in c && KeyOf(e) == k;
        assert e in Merge(b, c);
      } else {
        var e :| e in b && KeyOf(e) == k;
        WithoutKeeps(b, KeysOf(c), e);
        assert e in Merge(b, c);
      }
    }
    forall e | e in Merge(b, c) ensures KeyOf(e) in KeysOf(b) + KeysOf(c) {
      WithoutKeeps(b, KeysOf(c), e);
    }
  }

  /** Layers of overrides can be merged in any grouping. */
  lemma MergeAssociative(a: seq<string>, b: seq<string>, c: seq<string>)
    ensures Merge(Merge(a, b), c) == Merge(a, Merge(b, c))
  {
    MergedKeys(b, c);
    WithoutConcat(Without(a, KeysOf(b)), b, KeysOf(c));
    WithoutTwice(a, KeysOf(b), KeysOf(c));
  }

  lemma MergeUnit(a: seq<string>)
    ensures Merge(a, []) == a && Merge([], a) == a
  {
    WithoutNothing(a);
    assert KeysOf([]) == {};
  }

  lemma WithoutAgain(a: seq<string>, b: seq<string>, d: set<string>)
    requires KeysOf(b) <= d
    ensures Without(Without(a, d) + b, d) == Without(a, d)
  {
    WithoutConcat(Without(a, d), b, d);
    WithoutTwice(a, d, d);
    WithoutOwnKeys(b, d);
    assert d + d == d;
  }

  /** Applying the same overrides again changes nothing. */
  lemma MergeIdempotent(a: seq<string>, b: seq<string>)
    ensures Merge(Merge(a, b), b) == Merge(a, b)
  {
    WithoutAgain(a, b, KeysOf(b));
  }

  /** The entry that takes effect for a key: the last one. */
  ghost function Lookup(env: seq<string>, key: string): Option<string> {
    if env == [] then None
    else if KeyOf(env[|env| - 1]) == key then Some(env[|env| - 1])
    else Lookup(env[..|env| - 1], key)
  }

  lemma {:induction false} LookupConcat(a: seq<string>, b: seq<string>, key: string)
    ensures Lookup(a + b, key) == if key in KeysOf(b) then Lookup(b, key) else Lookup(a, key)
  {
    if b == [] {
      assert a + b == a;
    } else {
      assert (a + b)[..|a + b| - 1] == a + b[..|b| - 1];
      LookupConcat(a, b[..|b| - 1], key);
      assert KeysOf(b) == KeysOf(b[..|b| - 1]) + {KeyOf(b[|b| - 1])} by {
        assert b == b[..|b| - 1] + [b[|b| - 1]];
      }
    }
  }

  lemma {:induction false} LookupWithout(env: seq<string>, d: set<string>, key: string)
    requires key !in d
    ensures Lookup(Without(env, d), key) == Lookup(env, key)
  {
    if env != [] {
      var init, last := env[..|env| - 1], env[|env| - 1];
      LookupWithout(init, d, key);
      if KeyOf(last) !in d {
        assert Without(env, d)[..|Without(env, d)| - 1] == Without(init, d);
      } else {
        assert Without(env, d) == Without(init, d);
      }
    }
  }

  /** Overrides win for their keys; every other key keeps its value. */
  lemma MergeLookup(spec: seq<string>, over: seq<string>, key: string)
    ensures Lookup(Merge(spec, over), key) == if key in KeysOf(over) then Lookup(over, key) else Lookup(spec, key)
  {
    LookupConcat(Without(spec, KeysOf(over)), over, key);
    if key !in KeysOf(over) {
      LookupWithout(spec, KeysOf(over), key);
    }
  }

  /** So an override of a key leaves no entry that sets it otherwise, and every entry of another key in place. */
  lemma OverrideReplaces(spec: seq<string>, k: string, was: string, now: string)
    requires '=' !in k && was != now
    ensures k + "=" + was !in Merge(spec, [k + "=" + now])
    ensures forall e <- spec :: KeyOf(e) != k ==> e in Merge(spec, [k + "=" + now])
  {
    var over := [k + "=" + now];
    KeyOfEntry(k, was);
    KeyOfEntry(k, now);
    assert over[0] in over && KeysOf(over) == {k};
    assert (k + "=" + was)[|k| + 1..] == was && (k + "=" + now)[|k| + 1..] == now;
    WithoutKeeps(spec, {k}, k + "=" + was);
    forall e | e in spec && KeyOf(e) != k ensures e in Merge(spec, over) {
      WithoutKeeps(spec, {k}, e);
    }
  }

  // ----- The attach target -----

  datatype Container = Container(id: string, root: bool, attachable: bool, env: seq<string>)

  /** The declared attach preference, blank when there is none. */
  ghost function Preferred(tty: Option<string>): string {
    if tty.Some? then TrimSpace(tty.value) else ""
  }

  predicate IsPreferred(c: Container, pref: string) {
    pref != "" && !c.root && c.id == pref
  }

  predicate CanAttach(c: Container) {
    !c.root && c.attachable
  }

  /** The container an attach lands on: the preferred one if it is a workload, else the first attachable workload. */
  ghost predicate IsAttachTarget(tty: Option<string>, cs: seq<Container>, i: int) {
    var pref := Preferred(tty);
    if exists j | 0 <= j < |cs| :: IsPreferred(cs[j], pref) then
      0 <= i < |cs| && IsPreferred(cs[i], pref) && forall j | 0 <= j < i :: !IsPreferred(cs[j], pref)
    else if exists j | 0 <= j < |cs| :: CanAttach(cs[j]) then
      0 <= i < |cs| && CanAttach(cs[i]) && forall j | 0 <= j < i :: !CanAttach(cs[j])
    else i == -1
  }

  method ResolveAttachableContainerIndex(tty: Option<string>, cs: seq<Container>) returns (r: int)
    ensures IsAttachTarget(tty, cs, r)
    ensures -1 <= r < |cs|
  {
    if tty.Some? {
      var pref := TrimSpace(tty.value);
      if pref != "" {
        for i := 0 to |cs|
          invariant forall j | 0 <= j < i :: !IsPreferred(cs[j], pref)
        {
          if !cs[i].root && cs[i].id == pref {
            return i;
          }
        }
      }
    }
    for i := 0 to |cs|
      invariant forall j | 0 <= j < i :: !CanAttach(cs[j])
      invariant forall j | 0 <= j < |cs| :: !IsPreferred(cs[j], Preferred(tty))
    {
      if !cs[i].root && cs[i].attachable {
        return i;
      }
    }
    r := -1;
  }

  // ----- Baking the overrides in -----

  /** A materialised cell: its attach preference, containers and recorded overrides (when it has provenance). */
  datatype Doc = Doc(tty: Option<string>, containers: seq<Container>, recorded: Option<seq<string>>)

  /** The attach target, which overriding the environment never moves. */
  ghost function Target(d: Doc): (i: int)
    ensures IsAttachTarget(d.tty, d.containers, i)
  {
    TargetExists(d.tty, d.containers);
    var i :| IsAttachTarget(d.tty, d.containers, i);
    i
  }

  lemma TargetExists(tty: Option<string>, cs: seq<Container>)
    ensures exists i :: IsAttachTarget(tty, cs, i)
  {
    var pref := Preferred(tty);
    if exists j | 0 <= j < |cs| :: IsPreferred(cs[j], pref) {
      var flags := seq(|cs|, j requires 0 <= j < |cs| => IsPreferred(cs[j], pref));
      var w :| 0 <= w < |cs| && IsPreferred(cs[w], pref);
      assert flags[w];
      var i := FirstIndex(flags);
      forall j | 0 <= j < i ensures !IsPreferred(cs[j], pref) {
        assert !flags[j];
      }
      assert IsAttachTarget(tty, cs, i);
    } else if exists j | 0 <= j < |cs| :: CanAttach(cs[j]) {
      var flags := seq(|cs|, j requires 0 <= j < |cs| => CanAttach(cs[j]));
      var w :| 0 <= w < |cs| && CanAttach(cs[w]);
      assert flags[w];
      var i := FirstIndex(flags);
      forall j | 0 <= j < i ensures !CanAttach(cs[j]) {
        assert !flags[j];
      }
      assert IsAttachTarget(tty, cs, i);
    } else {
      assert IsAttachTarget(tty, cs, -1);
    }
  }

  ghost function FirstIndex(s: seq<bool>): (i: nat)
    requires exists j | 0 <= j < |s| :: s[j]
    ensures i < |s| && s[i] && forall j | 0 <= j < i :: !s[j]
  {
    if s[0] then 0 else
      var j :| 0 <= j < |s| && s[j];
      assert s[1..][j - 1];
      1 + FirstIndex(s[1..])
  }

  lemma TargetUnique(tty: Option<string>, cs: seq<Container>, i: int, j: int)
    requires IsAttachTarget(tty, cs, i) && IsAttachTarget(tty, cs, j)
    ensures i == j
  {
  }

  ghost function Baked(d: Doc, over: seq<string>): Doc {
    if over == [] then d
    else
      var t := Target(d);
      var cs := if t < 0 then d.containers
      else d.containers[t := d.containers[t].(env := Merge(d.containers[t].env, over))];
      Doc(d.tty, cs, if d.recorded.Some? then Some(over) else None)
  }

  class Cell {
    var doc: Doc

    constructor (doc: Doc)
      ensures this.doc == doc
    {
      this.doc := doc;
    }

    method ApplyEnvOverrides(over: seq<string>)
      modifies this
      ensures doc == Baked(old(doc), over)
    {
      if |over| == 0 {
        return;
      }
      var i := ResolveAttachableContainerIndex(doc.tty, doc.containers);
      TargetUnique(doc.tty, doc.containers, i, Target(doc));
      if i >= 0 {
        var env := MergeEnv(doc.containers[i].env, over);
        doc := doc.(containers := doc.containers[i := doc.containers[i].(env := env)]);
      }
      if doc.recorded.Some? {
        doc := doc.(recorded := Some(over));
      }
    }
  }

  /** Baking in the same overrides twice, or the recorded ones again, leaves the cell unchanged. */
  lemma BakingIsIdempotent(d: Doc, over: seq<string>)
    ensures Baked(Baked(d, over), over) == Baked(d, over)
    ensures over != [] && d.recorded.Some? ==>
      Baked(d, over).recorded.Some? && Baked(Baked(d, over), Baked(d, over).recorded.value) == Baked(d, over)
  {
    if over != [] {
      var t, d' := Target(d), Baked(d, over);
      assert |d'.containers| == |d.containers|;
      assert forall j | 0 <= j < |d.containers| ::
          IsPreferred(d'.containers[j], Preferred(d.tty)) == IsPreferred(d.containers[j], Preferred(d.tty))
          && CanAttach(d'.containers[j]) == CanAttach(d.containers[j]);
      assert IsAttachTarget(d'.tty, d'.containers, t);
      TargetUnique(d'.tty, d'.containers, t, Target(d'));
      if t >= 0 {
        MergeIdempotent(d.containers[t].env, over);
      }
    }
  }

  /** Baking: in the attach target every overridden key takes the override's value and every other key keeps its own;
      no other container changes, and a cell with provenance records the overrides. */
  lemma BakingOverrides(d: Doc, over: seq<string>, key: string)
    requires over != []
    ensures var d' := Baked(d, over);
            && d'.tty == d.tty && |d'.containers| == |d.containers|
            && d'.recorded == (if d.recorded.Some? then Some(over) else None)
            && forall i | 0 <= i < |d.containers| ::
                 && d'.containers[i].id == d.containers[i].id && d'.containers[i].root == d.containers[i].root
                 && d'.containers[i].attachable == d.containers[i].attachable
                 && Lookup(d'.containers[i].env, key) ==
                    (if i == Target(d) && key in KeysOf(over) then Lookup(over, key)
                     else Lookup(d.containers[i].env, key))
                 && (i != Target(d) ==> d'.containers[i] == d.containers[i])
  {
    var t := Target(d);
    if t >= 0 {
      MergeLookup(d.containers[t].env, over, key);
    }
  }
}
