/**
 Scalar `${KEY}` substitution (internal/cellblueprint/params.go). References are
 the leftmost matches of \$\{([A-Za-z_][A-Za-z0-9_]*)\}.
 */
module Substitution {

  predicate IsLetter(c: char) { 'A' <= c <= 'Z' || 'a' <= c <= 'z' || c == '_' }

  predicate IsNameChar(c: char) { IsLetter(c) || '0' <= c <= '9' }

  /** The shape of a parameter name. */
  predicate IsName(k: string) {
    k != "" && IsLetter(k[0]) && forall c <- k :: IsNameChar(c)
  }

  /** How many name characters s starts with. */
  function NameLen(s: string): (n: nat)
    ensures n <= |s|
    ensures forall i | 0 <= i < n :: IsNameChar(s[i])
    ensures n < |s| ==> !IsNameChar(s[n])
  {
    if s == "" || !IsNameChar(s[0]) then 0 else 1 + NameLen(s[1..])
  }

  function Reference(k: string): string { ['$', '{'] + k + ['}'] }

  /** The length of the reference s starts with, or 0. */
  function RefLen(s: string): (n: nat)
    ensures n > 0 ==> 4 <= n <= |s| && IsName(s[2..n - 1]) && s[..n] == Reference(s[2..n - 1])
  {
    if |s| < 4 || s[0] != '$' || s[1] != '{' || !IsLetter(s[2]) then 0
    else
      var e := 2 + NameLen(s[2..]);
      if e < |s| && s[e] == '}' then
        assert s[..e + 1] == Reference(s[2..e]);
        e + 1
      else 0
  }

  /** RefLen finds every reference: a name between the brackets is all it takes. */
  lemma RefLenComplete(k: string, rest: string)
    requires IsName(k)
    ensures RefLen(Reference(k) + rest) == |k| + 3
  {
    var s := Reference(k) + rest;
    assert s[2..] == k + ['}'] + rest;
    var n := NameLen(s[2..]);
    assert s[2..][|k|] == '}';
    assert forall i | 0 <= i < |k| :: s[2..][i] == k[i];
    assert s[2] == k[0];
  }

  /** References never overlap, so "leftmost" loses none. */
  lemma NoReferenceInside(s: string, i: nat)
    requires 0 < i < RefLen(s)
    ensures RefLen(s[i..]) == 0
  {
    var n := RefLen(s);
    if 2 <= i < n - 1 {
      assert s[i] == s[2..n - 1][i - 2];
    }
    assert s[i..][0] != '$';
  }

  // ----- Splitting -----

  datatype Token = Lit(c: char) | Ref(key: string)

  function Tokens(s: string): seq<Token>
    decreases |s|
  {
    if s == "" then []
    else
      var n := RefLen(s);
      if n > 0 then [Ref(s[2..n - 1])] + Tokens(s[n..]) else [Lit(s[0])] + Tokens(s[1..])
  }

  function PrintToken(t: Token): string {
    match t case Lit(c) => [c] case Ref(k) => Reference(k)
  }

  function Print(ts: seq<Token>): string {
    if ts == [] then "" else PrintToken(ts[0]) + Print(ts[1..])
  }

  /** A split that leaves no reference spelled out in literals. */
  ghost predicate IsSplit(ts: seq<Token>, s: string) {
    && Print(ts) == s
    && (forall i | 0 <= i < |ts| :: if ts[i].Ref? then IsName(ts[i].key) else RefLen(Print(ts[i..])) == 0)
  }

  lemma SplitCons(t: Token, ts: seq<Token>, rest: string)
    requires IsSplit(ts, rest)
    requires if t.Ref? then IsName(t.key) else RefLen(PrintToken(t) + rest) == 0
    ensures IsSplit([t] + ts, PrintToken(t) + rest)
  {
    var all := [t] + ts;
    assert all[1..] == ts && all[0..] == all;
    forall i | 0 <= i < |all| ensures if all[i].Ref? then IsName(all[i].key) else RefLen(Print(all[i..])) == 0 {
      if i > 0 {
        assert all[i] == ts[i - 1] && all[i..] == ts[i - 1..];
      }
    }
  }

  lemma HeadToken(s: string) returns (t: Token, rest: string)
    requires s != ""
    ensures Tokens(s) == [t] + Tokens(rest) && s == PrintToken(t) + rest && |rest| < |s|
    ensures if t.Ref? then IsName(t.key) else RefLen(s) == 0
  {
    var n := RefLen(s);
    if n > 0 {
      t, rest := Ref(s[2..n - 1]), s[n..];
      assert s == s[..n] + rest;
    } else {
      t, rest := Lit(s[0]), s[1..];
      assert s == [s[0]] + rest;
    }
  }

  /** Every text has exactly one split, and Tokens finds it. */
  lemma {:induction false} TokensSplit(s: string)
    ensures IsSplit(Tokens(s), s)
    decreases |s|
  {
    if s != "" {
      var t, rest := HeadToken(s);
      TokensSplit(rest);
      SplitCons(t, Tokens(rest), rest);
    }
  }

  lemma SplitTail(ts: seq<Token>, s: string)
    requires IsSplit(ts, s) && ts != []
    ensures IsSplit(ts[1..], Print(ts[1..]))
  {
    forall i | 0 <= i < |ts[1..]| ensures ts[1..][i] == ts[i + 1] && ts[1..][i..] == ts[i + 1..] {
    }
  }

  lemma SplitHead(t: Token, rest: string)
    requires if t.Ref? then IsName(t.key) else RefLen(PrintToken(t) + rest) == 0
    ensures Tokens(PrintToken(t) + rest) == [t] + Tokens(rest)
  {
    var s := PrintToken(t) + rest;
    if t.Ref? {
      RefLenComplete(t.key, rest);
      assert s[2..|t.key| + 2] == t.key;
      assert s[|t.key| + 3..] == rest;
    } else {
      assert s[0] == t.c && s[1..] == rest;
    }
  }

  lemma {:induction false} SplitIsUnique(ts: seq<Token>, s: string)
    requires IsSplit(ts, s)
    ensures ts == Tokens(s)
    decreases |ts|
  {
    if ts != [] {
      var rest := Print(ts[1..]);
      SplitTail(ts, s);
      SplitIsUnique(ts[1..], rest);
      assert ts[0..] == ts;
      SplitHead(ts[0], rest);
    }
  }

  // ----- Rewriting -----

  /** The replacement of one token: unknown keys stay as written. */
  function Replace(t: Token, values: map<string, string>): string {
    match t
    case Lit(c) => [c]
    case Ref(k) => if k in values then values[k] else Reference(k)
  }

  function ReplaceAll(ts: seq<Token>, values: map<string, string>): string {
    if ts == [] then "" else Replace(ts[0], values) + ReplaceAll(ts[1..], values)
  }

  /** ReplaceAllStringFunc over the text itself, left to right, continuing behind each match. */
  function Rewrite(s: string, values: map<string, string>): string
    decreases |s|
  {
    if s == "" then ""
    else
      var n := RefLen(s);
      if n > 0 then
        var match_ := s[..n];
        var k := s[2..n - 1];
        (if k in values then values[k] else match_) + Rewrite(s[n..], values)
      else [s[0]] + Rewrite(s[1..], values)
  }

  /** Substitution is replacing the references of the unique split: inserted values are never looked at again. */
  lemma {:induction false} RewriteReplacesTokens(s: string, values: map<string, string>)
    ensures Rewrite(s, values) == ReplaceAll(Tokens(s), values)
    decreases |s|
  {
    if s != "" {
      var n := RefLen(s);
      RewriteReplacesTokens(if n > 0 then s[n..] else s[1..], values);
      assert Tokens(s)[1..] == Tokens(if n > 0 then s[n..] else s[1..]);
    }
  }

  /** The keys a text refers to. */
  ghost function Keys(s: string): set<string> {
    set t | t in Tokens(s) && t.Ref? :: t.key
  }

  /** Only the values of referenced keys matter. */
  lemma {:induction false} RewriteDependsOnKeys(s: string, v: map<string, string>, v': map<string, string>)
    requires forall k <- Keys(s) :: (k in v <==> k in v') && (k in v ==> v[k] == v'[k])
    ensures Rewrite(s, v) == Rewrite(s, v')
    decreases |s|
  {
    if s != "" {
      var n := RefLen(s);
      var rest := if n > 0 then s[n..] else s[1..];
      forall k | k in Keys(rest) ensures k in Keys(s) {
        assert Ref(k) in Tokens(s);
      }
      if n > 0 {
        assert Ref(s[2..n - 1]) in Tokens(s);
      }
      RewriteDependsOnKeys(rest, v, v');
    }
  }

  /** strings.Contains(s, "${") */
  predicate HasOpener(s: string) {
    exists i | 0 <= i < |s| - 1 :: s[i] == '$' && s[i + 1] == '{'
  }

  /** Skipping texts without "${" is only a shortcut. */
  lemma {:induction false} ShortcutAgrees(s: string, values: map<string, string>)
    requires !HasOpener(s)
    ensures Rewrite(s, values) == s && Keys(s) == {}
  {
    if s != "" {
      assert RefLen(s) == 0;
      assert !HasOpener(s[1..]) by {
        forall i | 0 <= i < |s[1..]| - 1 ensures !(s[1..][i] == '$' && s[1..][i + 1] == '{') {
          assert s[1..][i] == s[i + 1] && s[1..][i + 1] == s[i + 2];
        }
      }
      ShortcutAgrees(s[1..], values);
      assert forall t <- Tokens(s) :: t == Lit(s[0]) || t in Tokens(s[1..]);
    }
  }

  /** The rewriting one scalar gets. */
  function Substituted(s: string, values: map<string, string>): string {
    if HasOpener(s) then Rewrite(s, values) else s
  }

  /** A lone reference becomes its value. */
  lemma LoneReference(k: string, values: map<string, string>)
    requires IsName(k) && k in values
    ensures Substituted(Reference(k), values) == values[k]
  {
    var s := Reference(k);
    RefLenComplete(k, "");
    assert s + "" == s && s[2..|s| - 1] == k && s[|s|..] == "";
    assert s[0] == '$' && s[1] == '{';
    assert Rewrite("", values) == "";
    assert values[k] + "" == values[k];
  }

  lemma RewriteAtReference(k: string, rest: string, values: map<string, string>)
    requires IsName(k)
    ensures Rewrite(Reference(k) + rest, values) ==
            (if k in values then values[k] else Reference(k)) + Rewrite(rest, values)
  {
    var s := Reference(k) + rest;
    RefLenComplete(k, rest);
    assert s[..|k| + 3] == Reference(k) && s[2..|k| + 2] == k && s[|k| + 3..] == rest;
  }

  lemma RewriteChar(c: char, rest: string, values: map<string, string>)
    requires c != '$'
    ensures Rewrite([c] + rest, values) == [c] + Rewrite(rest, values)
  {
    assert ([c] + rest)[1..] == rest;
  }

  lemma ConsBefore(a: string, mid: string, b: string)
    ensures a == "" ==> a + mid + b == mid + b
    ensures a != "" ==> a + mid + b == [a[0]] + (a[1..] + mid + b)
  {
  }

  /** The first reference of a text is replaced where it stands: by its value when the key has one, and otherwise it
      stays; what follows is rewritten in the same way. */
  lemma {:induction false} RewriteFirst(a: string, k: string, b: string, values: map<string, string>)
    requires IsName(k) && '$' !in a
    ensures var x := if k in values then values[k] else Reference(k);
            Rewrite(a + Reference(k) + b, values) == a + x + Rewrite(b, values)
  {
    var x := if k in values then values[k] else Reference(k);
    ConsBefore(a, Reference(k), b);
    ConsBefore(a, x, Rewrite(b, values));
    if a == "" {
      RewriteAtReference(k, b, values);
    } else {
      assert a[0] in a && forall c <- a[1..] :: c in a;
      RewriteChar(a[0], a[1..] + Reference(k) + b, values);
      RewriteFirst(a[1..], k, b, values);
    }
  }
}
