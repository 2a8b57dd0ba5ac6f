/**
 The per-cell ${CELL_NAME} volume template (internal/cellblueprint/percell.go).
 Go slices share their backing arrays, so volume lists are heap arrays here and
 a volumeRef is a heap object.
 */
module PerCellVolumes {
  import opened Text
  import opened Arith

  const VAR := "${CELL_NAME}"

  // ----- Naming -----

  /** strings.Contains(s, VAR) */
  predicate HasVar(s: string) {
    HasPrefix(s, VAR) || (s != "" && HasVar(s[1..]))
  }

  /** strings.ReplaceAll(s, VAR, name) */
  function Expand(s: string, name: string): string {
    if HasPrefix(s, VAR) then name + Expand(s[|VAR|..], name)
    else if s == "" then ""
    else [s[0]] + Expand(s[1..], name)
  }

  function Occurrences(s: string): nat {
    if HasPrefix(s, VAR) then 1 + Occurrences(s[|VAR|..])
    else if s == "" then 0
    else Occurrences(s[1..])
  }

  lemma {:induction false} ExpandLength(s: string, name: string)
    ensures |Expand(s, name)| == |s| - Occurrences(s) * |VAR| + |name| * Occurrences(s)
  {
    if HasPrefix(s, VAR) {
      ExpandLength(s[|VAR|..], name);
    } else if s != "" {
      ExpandLength(s[1..], name);
    }
  }

  lemma {:induction false} VarOccurs(s: string)
    ensures HasVar(s) <==> Occurrences(s) > 0
  {
    if !HasPrefix(s, VAR) && s != "" {
      VarOccurs(s[1..]);
    }
  }

  /** A template without the variable expands to itself. */
  lemma {:induction false} NoVarNoChange(s: string, name: string)
    requires !HasVar(s)
    ensures Expand(s, name) == s
  {
    if s != "" {
      NoVarNoChange(s[1..], name);
    }
  }

  /** The variable's first character is nowhere else in it, so occurrences do not overlap. */
  lemma VarStartsOnce(i: nat)
    requires 0 < i < |VAR|
    ensures VAR[i] != VAR[0]
  {
  }

  lemma NoEarlierVar(a: string, b: string)
    requires !HasVar(a) && a != ""
    ensures !HasPrefix(a + VAR + b, VAR)
  {
    var s := a + VAR + b;
    if |a| >= |VAR| {
      assert s[..|VAR|] == a[..|VAR|];
    } else {
      VarStartsOnce(|a|);
      assert s[|a|] == VAR[0];
      assert s[..|VAR|][|a|] != VAR[|a|];
    }
  }

  lemma ExpandAtVar(b: string, name: string)
    ensures Expand(VAR + b, name) == name + Expand(b, name)
  {
    var s := VAR + b;
    assert s[..|VAR|] == VAR && s[|VAR|..] == b;
  }

  lemma ExpandChar(c: char, rest: string, name: string)
    requires !HasPrefix([c] + rest, VAR)
    ensures Expand([c] + rest, name) == [c] + Expand(rest, name)
  {
    assert ([c] + rest)[1..] == rest;
  }

  lemma ConsConcat(a: string, mid: string, b: string)
    ensures a == "" ==> a + mid + b == mid + b
    ensures a != "" ==> a + mid + b == [a[0]] + (a[1..] + mid + b)
  {
  }

  /** The first occurrence of the variable is replaced where it stands, and the rest expanded behind it. */
  lemma {:induction false} ExpandFirst(a: string, b: string, name: string)
    requires !HasVar(a)
    ensures Expand(a + VAR + b, name) == a + name + Expand(b, name)
  {
    ConsConcat(a, VAR, b);
    ConsConcat(a, name, Expand(b, name));
    if a == "" {
      ExpandAtVar(b, name);
    } else {
      NoEarlierVar(a, b);
      ExpandChar(a[0], a[1..] + VAR + b, name);
      ExpandFirst(a[1..], b, name);
    }
  }

  lemma {:induction false} SameLengthNames(s: string, a: string, b: string)
    requires HasVar(s) && |a| == |b| && Expand(s, a) == Expand(s, b)
    ensures a == b
  {
    if HasPrefix(s, VAR) {
      assert a == Expand(s, a)[..|a|] == Expand(s, b)[..|b|] == b;
    } else {
      assert Expand(s, a)[1..] == Expand(s[1..], a) && Expand(s, b)[1..] == Expand(s[1..], b);
      SameLengthNames(s[1..], a, b);
    }
  }

  /** Distinct cells get distinct volumes: any template with the variable is injective in the cell name. */
  lemma DistinctCellsDistinctVolumes(s: string, a: string, b: string)
    requires HasVar(s)
    ensures Expand(s, a) == Expand(s, b) <==> a == b
  {
    if Expand(s, a) == Expand(s, b) {
      VarOccurs(s);
      ExpandLength(s, a);
      ExpandLength(s, b);
      MulInjective(|a|, |b|, Occurrences(s));
      SameLengthNames(s, a, b);
    }
  }

  // ----- In place -----

  class VolumeRef {
    var name: string
    const scope: (string, string, string)

    constructor (name: string, scope: (string, string, string))
      ensures this.name == name && this.scope == scope
    {
      this.name := name;
      this.scope := scope;
    }
  }

  datatype Mount = Mount(isVolume: bool, source: string, ref: VolumeRef?, ensure: bool)

  class Container {
    var volumes: array<Mount>

    constructor (volumes: array<Mount>)
      ensures this.volumes == volumes
    {
      this.volumes := volumes;
    }
  }

  /** The mount m as expansion for name leaves it; then holds the texts it had before. */
  ghost predicate IsExpansion(m: Mount, before: Mount, refName: string, name: string)
    reads m.ref
  {
    var bySource := before.isVolume && HasVar(before.source);
    var byRef := before.isVolume && before.ref != null && HasVar(refName);
    && m.isVolume == before.isVolume
    && m.source == (if bySource then Expand(before.source, name) else before.source)
    && (m.ref == null <==> before.ref == null)
    && (!byRef ==> m.ref == before.ref)
    && (byRef ==> m.ref != before.ref && m.ref.name == Expand(refName, name) && m.ref.scope == before.ref.scope)
    && m.ensure == (before.ensure || bySource || byRef)
  }

  ghost function RefName(m: Mount): string
    reads m.ref
  {
    if m.ref == null then "" else m.ref.name
  }

  /** One mount, with its volumeRef cloned before it is renamed. */
  method ExpandMount(m: Mount, name: string) returns (r: Mount)
    ensures IsExpansion(r, m, RefName(m), name)
    ensures r.ref != m.ref ==> r.ref != null && fresh(r.ref)
  {
    r := m;
    if !m.isVolume {
      return;
    }
    var expanded := false;
    if HasVar(m.source) {
      r := r.(source := Expand(m.source, name));
      expanded := true;
    }
    if m.ref != null && HasVar(m.ref.name) {
      var clone := new VolumeRef(Expand(m.ref.name, name), m.ref.scope);
      r := r.(ref := clone);
      expanded := true;
    }
    if expanded {
      r := r.(ensure := true);
    }
  }

  /** ExpandPerCellVolumes for one container: the shared array and every shared volumeRef keep their contents. */
  method ExpandContainer(c: Container, name: string)
    modifies c`volumes
    ensures c.volumes.Length == old(c.volumes.Length)
    ensures c.volumes.Length > 0 ==> fresh(c.volumes)
    ensures forall i | 0 <= i < c.volumes.Length ::
      IsExpansion(c.volumes[i], old(c.volumes[i]), old(RefName(c.volumes[i])), name)
  {
    if c.volumes.Length == 0 {
      return;
    }
    var shared := c.volumes;
    var vols := new Mount[shared.Length](i requires 0 <= i < shared.Length reads shared => shared[i]);
    c.volumes := vols;
    for i := 0 to vols.Length
      invariant c.volumes == vols && fresh(vols) && vols.Length == old(c.volumes.Length)
      invariant forall j | 0 <= j < i :: IsExpansion(vols[j], old(c.volumes[j]), old(RefName(c.volumes[j])), name)
      invariant forall j | i <= j < vols.Length :: vols[j] == old(c.volumes[j])
    {
      vols[i] := ExpandMount(vols[i], name);
    }
  }

  /** ExpandPerCellVolumes */
  method ExpandAll(containers: seq<Container>, name: string)
    requires forall i, j | 0 <= i < j < |containers| :: containers[i] != containers[j]
    modifies containers`volumes
    ensures forall c <- containers ::
      && c.volumes.Length == old(c.volumes.Length)
      && forall i | 0 <= i < c.volumes.Length ::
           IsExpansion(c.volumes[i], old(c.volumes[i]), old(RefName(c.volumes[i])), name)
  {
    for k := 0 to |containers|
      invariant forall j | 0 <= j < k :: ExpandedSince(containers[j], name)
      invariant forall j | k <= j < |containers| :: containers[j].volumes == old(containers[j].volumes)
    {
      ExpandContainer(containers[k], name);
    }
  }

  twostate predicate ExpandedSince(c: Container, name: string)
    reads c, c.volumes, set i | 0 <= i < c.volumes.Length :: c.volumes[i].ref
  {
    && c.volumes.Length == old(c.volumes.Length)
    && forall i | 0 <= i < c.volumes.Length ::
         IsExpansion(c.volumes[i], old(c.volumes[i]), old(RefName(c.volumes[i])), name)
  }

  /** Two cells stamped from one shared volume list: each gets volumes of its own, the list is as it was. */
  method StampTwo(template: array<Mount>, a: string, b: string) returns (ca: Container, cb: Container)
    requires a != b
    ensures template[..] == old(template[..])
    ensures forall i | 0 <= i < template.Length ::
      template[i].ref != null ==> template[i].ref.name == old(template[i].ref.name)
    ensures ca.volumes.Length == cb.volumes.Length == template.Length
    ensures forall i | 0 <= i < template.Length && template[i].isVolume && HasVar(template[i].source) ::
      ca.volumes[i].ensure && cb.volumes[i].ensure && ca.volumes[i].source != cb.volumes[i].source
    ensures forall i |
      0 <= i < template.Length && template[i].isVolume && template[i].ref != null && HasVar(template[i].ref.name) ::
      && ca.volumes[i].ensure && cb.volumes[i].ensure
      && ca.volumes[i].ref != null && cb.volumes[i].ref != null && ca.volumes[i].ref.name != cb.volumes[i].ref.name
  {
    ca := new Container(template);
    cb := new Container(template);
    ExpandAll([ca], a);
    assert ca in [ca];
    ExpandAll([cb], b);
    assert cb in [cb];
    forall i | 0 <= i < template.Length && template[i].isVolume && HasVar(template[i].source)
      ensures Expand(template[i].source, a) != Expand(template[i].source, b)
    {
      DistinctCellsDistinctVolumes(template[i].source, a, b);
    }
    forall i | 0 <= i < template.Length && template[i].ref != null && HasVar(template[i].ref.name)
      ensures Expand(template[i].ref.name, a) != Expand(template[i].ref.name, b)
    {
      DistinctCellsDistinctVolumes(template[i].ref.name, a, b);
    }
  }
}
