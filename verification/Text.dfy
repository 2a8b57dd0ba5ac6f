/**
 String helpers of Go's standard library that the modelled code relies on, over
 sequences of Unicode characters.
 */
module Text {

  /** The white space of Go's unicode.IsSpace. */
  predicate IsSpace(c: char) {
    || c in "\t\n\r "
    || c in ['\U{0B}', '\U{0C}', '\U{85}', '\U{A0}', '\U{1680}']
    || c in ['\U{2028}', '\U{2029}', '\U{202F}', '\U{205F}', '\U{3000}']
    || '\U{2000}' <= c <= '\U{200A}'
  }

  function TrimLeft(s: string): string {
    if s != "" && IsSpace(s[0]) then TrimLeft(s[1..]) else s
  }

  function TrimRight(s: string): string {
    if s != "" && IsSpace(s[|s| - 1]) then TrimRight(s[..|s| - 1]) else s
  }

  /** strings.TrimSpace */
  function TrimSpace(s: string): string {
    TrimRight(TrimLeft(s))
  }

  lemma {:induction false} TrimLeftStarts(s: string)
    ensures TrimLeft(s) != "" ==> !IsSpace(TrimLeft(s)[0])
  {
    if s != "" && IsSpace(s[0]) {
      TrimLeftStarts(s[1..]);
    }
  }

  lemma {:induction false} TrimRightEnds(s: string)
    ensures TrimRight(s) != "" ==> !IsSpace(TrimRight(s)[|TrimRight(s)| - 1]) && s != "" && TrimRight(s)[0] == s[0]
  {
    if s != "" && IsSpace(s[|s| - 1]) {
      TrimRightEnds(s[..|s| - 1]);
    }
  }

  /** Trimmed text stays as it is. */
  lemma TrimTwice(s: string)
    ensures TrimSpace(TrimSpace(s)) == TrimSpace(s)
  {
    TrimLeftStarts(s);
    TrimRightEnds(TrimLeft(s));
  }

  /** Nothing but white space. */
  predicate Blank(s: string) {
    forall c <- s :: IsSpace(c)
  }

  lemma {:induction false} TrimRightKeepsFirst(s: string)
    requires s != "" && !IsSpace(s[0])
    ensures TrimRight(s) != ""
  {
    if |s| > 1 && IsSpace(s[|s| - 1]) {
      TrimRightKeepsFirst(s[..|s| - 1]);
    }
  }

  /** The blank texts are those trimming leaves nothing of. */
  lemma {:induction false} TrimsToNothing(s: string)
    ensures TrimSpace(s) == "" <==> Blank(s)
  {
    if s != "" {
      if IsSpace(s[0]) {
        TrimsToNothing(s[1..]);
        assert Blank(s) <==> Blank(s[1..]) by {
          assert s == [s[0]] + s[1..];
        }
      } else {
        TrimRightKeepsFirst(s);
      }
    }
  }

  predicate HasPrefix(s: string, p: string) {
    |p| <= |s| && s[..|p|] == p
  }

  predicate HasSuffix(s: string, p: string) {
    |p| <= |s| && s[|s| - |p|..] == p
  }

  /** Text around the first separator determines both sides. */
  lemma SplitUnique<T>(a: seq<T>, b: seq<T>, a': seq<T>, b': seq<T>, sep: T)
    requires sep !in a && sep !in a'
    requires a + [sep] + b == a' + [sep] + b'
    ensures a == a' && b == b'
  {
    var s := a + [sep] + b;
    assert forall i | 0 <= i < |a| :: s[i] == a[i] != sep;
    assert forall i | 0 <= i < |a'| :: s[i] == a'[i] != sep;
    assert s[|a|] == s[|a'|] == sep;
    assert a == s[..|a|] && b == s[|a| + 1..];
    assert a' == s[..|a'|] && b' == s[|a'| + 1..];
  }

  /** Trailing slashes dropped. */
  function TrimSlashes(s: string): string {
    if s != "" && s[|s| - 1] == '/' then TrimSlashes(s[..|s| - 1]) else s
  }

  lemma {:induction false} TrimSlashesTwice(s: string)
    ensures var t := TrimSlashes(s); TrimSlashes(t) == t && (t != "" ==> t[0] == s[0])
  {
    if s != "" && s[|s| - 1] == '/' {
      TrimSlashesTwice(s[..|s| - 1]);
    }
  }
}
