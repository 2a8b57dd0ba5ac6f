/**
 Containerd namespaces owned by kukeon, recognised by suffix
 (internal/consts/consts.go).
 */
module Namespaces {
  import opened Text

  const HISTORY := "_history"

  // ----- The configured suffix -----

  /** The suffixes ConfigureRuntime accepts, after trimming. */
  predicate ValidSuffix(s: string) {
    s != "" && s[0] != '.' && s[|s| - 1] != '.' && forall c <- s :: c !in "/ \t\n"
  }

  predicate ValidRoot(root: string) {
    root != "" && root[0] == '/' && TrimSlashes(root) != ""
  }

  class Runtime {
    /** RealmNamespaceSuffix, always with its leading dot. */
    var suffix: string
    var cgroupRoot: string

    ghost predicate Valid()
      reads this
    {
      && suffix != "" && suffix[0] == '.' && ValidSuffix(suffix[1..])
      && ValidRoot(cgroupRoot) && TrimSlashes(cgroupRoot) == cgroupRoot
    }

    constructor ()
      ensures Valid() && suffix == ".kukeon.io" && cgroupRoot == "/kukeon"
    {
      suffix := ".kukeon.io";
      cgroupRoot := "/kukeon";
    }

    method ConfigureRuntime(newSuffix: string, newRoot: string) returns (ok: bool)
      requires Valid()
      modifies this
      ensures Valid()
      ensures ok <==> ValidSuffix(TrimSpace(newSuffix)) && ValidRoot(TrimSpace(newRoot))
      ensures ok ==> suffix == "." + TrimSpace(newSuffix) && cgroupRoot == TrimSlashes(TrimSpace(newRoot))
      ensures !ok ==> suffix == old(suffix) && cgroupRoot == old(cgroupRoot)
    {
      var s := TrimSpace(newSuffix);
      if s == "" {
        return false;
      }
      if s[0] == '.' || s[|s| - 1] == '.' {
        return false;
      }
      if exists c <- s :: c in "/ \t\n" {
        return false;
      }
      var root := TrimSpace(newRoot);
      if root == "" {
        return false;
      }
      if root[0] != '/' {
        return false;
      }
      root := TrimSlashes(root);
      if root == "" {
        return false;
      }
      TrimSlashesTwice(TrimSpace(newRoot));
      suffix := "." + s;
      cgroupRoot := root;
      ok := true;
    }
  }

  // ----- Realm namespaces -----

  function RealmNamespace(suffix: string, realm: string): string { realm + suffix }

  predicate IsKukeon(suffix: string, ns: string) {
    |ns| > |suffix| && ns[|ns| - |suffix|..] == suffix
  }

  function RealmFrom(suffix: string, ns: string): string {
    if !IsKukeon(suffix, ns) then "" else ns[..|ns| - |suffix|]
  }

  /** Realm names and kukeon namespaces correspond one to one. */
  lemma RealmRoundTrip(suffix: string, realm: string)
    requires realm != ""
    ensures IsKukeon(suffix, RealmNamespace(suffix, realm)) && RealmFrom(suffix, RealmNamespace(suffix, realm)) == realm
  {
  }

  lemma NamespaceRoundTrip(suffix: string, ns: string)
    ensures IsKukeon(suffix, ns) <==> RealmFrom(suffix, ns) != ""
    ensures IsKukeon(suffix, ns) ==> RealmNamespace(suffix, RealmFrom(suffix, ns)) == ns
  {
  }

  // ----- BuildKit history companions -----

  predicate IsHistory(suffix: string, ns: string) {
    HasSuffix(ns, HISTORY) && IsKukeon(suffix, ns[..|ns| - |HISTORY|])
  }

  /** The companion of every realm namespace is recognised as one. */
  lemma CompanionIsRecognised(suffix: string, realm: string)
    requires realm != ""
    ensures IsHistory(suffix, RealmNamespace(suffix, realm) + HISTORY)
  {
    var ns := RealmNamespace(suffix, realm);
    assert (ns + HISTORY)[..|ns|] == ns;
    RealmRoundTrip(suffix, realm);
  }

  /** A namespace of both kinds repeats "_history" backwards through the whole suffix, so it has no dot there. */
  lemma {:induction false} NoDotInTail(suffix: string, ns: string, j: nat)
    requires IsKukeon(suffix, ns) && IsHistory(suffix, ns)
    requires |ns| - |HISTORY| - |suffix| <= j < |ns|
    ensures ns[j] != '.'
    decreases |ns| - j
  {
    var n := |ns|;
    if j >= n - |HISTORY| {
      assert ns[j] == HISTORY[j - (n - |HISTORY|)];
      assert forall c <- HISTORY :: c != '.';
    } else {
      var m := ns[..n - |HISTORY|];
      var i := j - (n - |HISTORY| - |suffix|);
      assert m[|m| - |suffix|..][i] == suffix[i];
      assert ns[n - |suffix|..][i] == suffix[i];
      assert ns[j] == ns[j + |HISTORY|];
      NoDotInTail(suffix, ns, j + |HISTORY|);
    }
  }

  /** No namespace is both a realm's own and a history companion, whatever suffix is configured. */
  lemma NeverBoth(suffix: string, ns: string)
    requires suffix != "" && suffix[0] == '.'
    ensures !(IsKukeon(suffix, ns) && IsHistory(suffix, ns))
  {
    if IsKukeon(suffix, ns) {
      assert ns[|ns| - |suffix|..][0] == ns[|ns| - |suffix|];
      if IsHistory(suffix, ns) {
        NoDotInTail(suffix, ns, |ns| - |suffix|);
      }
    }
  }

  // ----- Several instances on one host -----

  /** Two instances claim a common namespace exactly when one's suffix ends in the other's: an instance on
      "kukeon.io" also claims what one on "dev.kukeon.io" owns. */
  lemma InstancesOverlapExactly(s: string, s': string)
    ensures (exists ns :: IsKukeon(s, ns) && IsKukeon(s', ns)) <==> HasSuffix(s, s') || HasSuffix(s', s)
  {
    if ns :| IsKukeon(s, ns) && IsKukeon(s', ns) {
      if |s'| <= |s| {
        LongerEndsInShorter(s, s', ns);
      } else {
        LongerEndsInShorter(s', s, ns);
      }
    }
    if HasSuffix(s, s') {
      Claims(s, s');
    } else if HasSuffix(s', s) {
      Claims(s', s);
    }
  }

  lemma LongerEndsInShorter(s: string, s': string, ns: string)
    requires IsKukeon(s, ns) && IsKukeon(s', ns) && |s'| <= |s|
    ensures HasSuffix(s, s')
  {
    assert s[|s| - |s'|..] == ns[|ns| - |s|..][|s| - |s'|..] == ns[|ns| - |s'|..];
  }

  lemma Claims(long: string, short: string)
    requires HasSuffix(long, short)
    ensures IsKukeon(long, "x" + long) && IsKukeon(short, "x" + long)
  {
    var ns := "x" + long;
    assert ns[1..] == long;
    assert ns[|ns| - |short|..] == long[|long| - |short|..];
  }
}
