/**
 Enumerating the mounts under a directory, deepest first
 (internal/controller/unmount.go). Go strings are byte strings; here a char
 stands for one byte.
 */
module Mounts {
  import opened Wrappers
  import opened Text
  import opened Order

  // ----- Octal escapes -----

  predicate IsOctal(c: char) { '0' <= c <= '7' }

  function DigitValue(c: char): nat
    requires IsOctal(c)
  {
    c as int - '0' as int
  }

  /** Three octal digits worth at most one byte. */
  function Octal(s: string): Option<char> {
    if |s| == 3 && IsOctal(s[0]) && IsOctal(s[1]) && IsOctal(s[2]) && DigitValue(s[0]) <= 3 then
      Some((DigitValue(s[0]) * 64 + DigitValue(s[1]) * 8 + DigitValue(s[2])) as char)
    else None
  }

  /** parseOctalTriplet */
  method ParseOctalTriplet(s: string) returns (r: Option<char>)
    ensures r == Octal(s)
  {
    if |s| != 3 {
      return None;
    }
    var n := 0;
    for i := 0 to 3
      invariant forall j | 0 <= j < i :: IsOctal(s[j])
      invariant i == 0 ==> n == 0
      invariant i == 1 ==> n == DigitValue(s[0])
      invariant i == 2 ==> n == DigitValue(s[0]) * 8 + DigitValue(s[1])
      invariant i == 3 ==> n == DigitValue(s[0]) * 64 + DigitValue(s[1]) * 8 + DigitValue(s[2])
    {
      if s[i] < '0' || s[i] > '7' {
        return None;
      }
      n := n * 8 + (s[i] as int - '0' as int);
    }
    if n > 0xFF {
      return None;
    }
    r := Some(n as char);
  }

  /** decodeMountPath as a function: valid escapes are undone, anything else passes through. */
  function Decode(s: string): string {
    if s == "" then ""
    else if s[0] == '\\' && |s| > 3 && Octal(s[1..4]).Some? then [Octal(s[1..4]).value] + Decode(s[4..])
    else [s[0]] + Decode(s[1..])
  }

  lemma {:induction false} DecodeWithoutBackslash(s: string)
    requires '\\' !in s
    ensures Decode(s) == s
  {
    if s != "" {
      DecodeWithoutBackslash(s[1..]);
    }
  }

  /** Whether position i starts a valid escape. */
  predicate EscapeAt(s: string, i: nat) {
    i + 3 < |s| && s[i] == '\\' && Octal(s[i + 1..i + 4]).Some?
  }

  lemma DecodeStep(s: string, i: nat)
    requires i < |s|
    ensures Decode(s[i..]) ==
            if EscapeAt(s, i) then [Octal(s[i + 1..i + 4]).value] + Decode(s[i + 4..]) else [s[i]] + Decode(s[i + 1..])
  {
    assert s[i..][1..] == s[i + 1..];
    if i + 3 < |s| {
      assert s[i..][1..4] == s[i + 1..i + 4] && s[i..][4..] == s[i + 4..];
    }
  }

  /** decodeMountPath */
  method DecodeMountPath(s: string) returns (r: string)
    ensures r == Decode(s)
  {
    if '\\' !in s {
      DecodeWithoutBackslash(s);
      return s;
    }
    r := DecodeEscapes(s);
  }

  method DecodeEscapes(s: string) returns (r: string)
    ensures r == Decode(s)
  {
    r := "";
    var i := 0;
    while i < |s|
      invariant 0 <= i <= |s|
      invariant Decode(s) == r + Decode(s[i..])
    {
      DecodeStep(s, i);
      if s[i] == '\\' && i + 3 < |s| {
        var c := ParseOctalTriplet(s[i + 1..i + 4]);
        if c.Some? {
          Append(r, c.value, Decode(s[i + 4..]));
          r := r + [c.value];
          i := i + 4;
          continue;
        }
      }
      Append(r, s[i], Decode(s[i + 1..]));
      r := r + [s[i]];
      i := i + 1;
    }
  }

  lemma Append(r: string, c: char, rest: string)
    ensures r + ([c] + rest) == r + [c] + rest
  {
  }

  /** The escape procfs writes for a byte. */
  function EscapeByte(c: char): string
    requires c as int < 256
  {
    var n := c as int;
    ['\\', ('0' as int + n / 64) as char, ('0' as int + n / 8 % 8) as char, ('0' as int + n % 8) as char]
  }

  predicate IsBytes(p: string) { forall i | 0 <= i < |p| :: p[i] as int < 256 }

  /** A path with the bytes of some set escaped. */
  function Escape(p: string, esc: char -> bool): string
    requires IsBytes(p)
  {
    if p == "" then "" else (if esc(p[0]) then EscapeByte(p[0]) else [p[0]]) + Escape(p[1..], esc)
  }

  /** Decoding undoes every such escaping, as long as the backslash itself is escaped. */
  lemma {:induction false} DecodeUndoesEscape(p: string, esc: char -> bool)
    requires IsBytes(p) && esc('\\')
    ensures Decode(Escape(p, esc)) == p
  {
    if p != "" {
      DecodeUndoesEscape(p[1..], esc);
      var e := Escape(p, esc);
      assert e[0..] == e;
      DecodeStep(e, 0);
      if esc(p[0]) {
        EscapeByteParses(p[0]);
        assert e[1..4] == EscapeByte(p[0])[1..4] && e[4..] == Escape(p[1..], esc);
      } else {
        assert e[1..] == Escape(p[1..], esc);
      }
    }
  }

  lemma EscapeByteParses(c: char)
    requires c as int < 256
    ensures Octal(EscapeByte(c)[1..4]) == Some(c)
  {
    OctalDigits(c as int);
  }

  lemma OctalDigits(n: int)
    requires 0 <= n < 256
    ensures n == n / 64 * 64 + n / 8 % 8 * 8 + n % 8 && 0 <= n / 64 <= 3
  {
    var h, l := n / 8, n % 8;
    assert n == h * 8 + l && n / 64 == h / 8;
  }

  // ----- Fields of a line -----

  /** The length of the white space s starts with, or 0: ASCII white space and the UTF-8 forms of the rest. */
  function SpaceLen(s: string): (n: nat)
    ensures n <= |s|
  {
    if s == "" then 0
    else if s[0] in "\t\n\r " || s[0] == '\U{0B}' || s[0] == '\U{0C}' then 1
    else if |s| >= 2 && s[0] == '\U{C2}' && s[1] in ['\U{85}', '\U{A0}'] then 2
    else if |s| >= 3 && (
              || (s[0] == '\U{E1}' && s[1] == '\U{9A}' && s[2] == '\U{80}')
              || (s[0] == '\U{E2}' && s[1] == '\U{80}'
                  && ('\U{80}' <= s[2] <= '\U{8A}' || s[2] in ['\U{A8}', '\U{A9}', '\U{AF}']))
              || (s[0] == '\U{E2}' && s[1] == '\U{81}' && s[2] == '\U{9F}')
              || (s[0] == '\U{E3}' && s[1] == '\U{80}' && s[2] == '\U{80}')) then 3
    else 0
  }

  /** No white space anywhere. */
  predicate IsWord(s: string) {
    s == "" || (SpaceLen(s) == 0 && IsWord(s[1..]))
  }

  /** The length of the word s starts with. */
  function WordLen(s: string): (n: nat)
    ensures n <= |s|
    ensures n == 0 <==> s == "" || SpaceLen(s) > 0
  {
    if s == "" || SpaceLen(s) > 0 then 0 else 1 + WordLen(s[1..])
  }

  /** strings.Fields */
  function Fields(s: string): seq<string>
    decreases |s|
  {
    if s == "" then []
    else if SpaceLen(s) > 0 then Fields(s[SpaceLen(s)..])
    else [s[..WordLen(s)]] + Fields(s[WordLen(s)..])
  }

  /** White space of one byte. */
  predicate IsBreak(c: char) { c in " \t\n\r" }

  /** A break behind a text changes neither the white space nor the word it starts with. */
  lemma SpaceLenBefore(a: string, c: char, rest: string)
    requires a != "" && IsBreak(c)
    ensures SpaceLen(a + [c] + rest) == SpaceLen(a)
  {
    var s := a + [c] + rest;
    assert s[0] == a[0] && s[1] == (if |a| > 1 then a[1] else c);
    assert |a| > 1 ==> s[2] == if |a| > 2 then a[2] else c;
  }

  lemma {:induction false} WordLenBefore(a: string, c: char, rest: string)
    requires IsBreak(c)
    ensures WordLen(a + [c] + rest) == WordLen(a)
  {
    if a != "" {
      SpaceLenBefore(a, c, rest);
      assert (a + [c] + rest)[1..] == a[1..] + [c] + rest;
      WordLenBefore(a[1..], c, rest);
    }
  }

  /** The white space or word a text starts with. */
  function HeadLen(s: string): (n: nat)
    requires s != ""
    ensures 0 < n <= |s|
  {
    if SpaceLen(s) > 0 then SpaceLen(s) else WordLen(s)
  }

  function HeadField(s: string): seq<string>
    requires s != ""
  {
    if SpaceLen(s) > 0 then [] else [s[..WordLen(s)]]
  }

  lemma FieldsStep(s: string)
    requires s != ""
    ensures Fields(s) == HeadField(s) + Fields(s[HeadLen(s)..])
  {
  }

  lemma HeadBefore(a: string, c: char, rest: string)
    requires a != "" && IsBreak(c)
    ensures var s, n := a + [c] + rest, HeadLen(a);
            HeadField(s) == HeadField(a) && HeadLen(s) == n && s[n..] == a[n..] + [c] + rest
  {
    SpaceLenBefore(a, c, rest);
    WordLenBefore(a, c, rest);
    assert (a + [c] + rest)[..WordLen(a)] == a[..WordLen(a)];
  }

  /** Fields of texts with a break between them. */
  lemma {:induction false} FieldsConcat(a: string, c: char, rest: string)
    requires IsBreak(c)
    ensures Fields(a + [c] + rest) == Fields(a) + Fields(rest)
    decreases |a|
  {
    var s := a + [c] + rest;
    FieldsStep(s);
    if a == "" {
      assert s[1..] == rest;
    } else {
      HeadBefore(a, c, rest);
      FieldsStep(a);
      FieldsConcat(a[HeadLen(a)..], c, rest);
    }
  }

  /** A word is its only field, and only a word is. */
  lemma FieldsOfWord(w: string)
    requires w != ""
    ensures IsWord(w) <==> Fields(w) == [w]
  {
    if IsWord(w) {
      WordLenOfWord(w);
      assert w[..|w|] == w && Fields(w[|w|..]) == [];
    }
    if Fields(w) == [w] {
      FieldsAreWords(w);
      assert Fields(w)[0] in Fields(w);
    }
  }

  lemma {:induction false} WordLenOfWord(w: string)
    requires IsWord(w)
    ensures WordLen(w) == |w|
  {
    if w != "" {
      WordLenOfWord(w[1..]);
    }
  }

  lemma {:induction false} FieldsAreWords(s: string)
    ensures forall f <- Fields(s) :: f != "" && IsWord(f)
    decreases |s|
  {
    if s != "" {
      if SpaceLen(s) > 0 {
        FieldsAreWords(s[SpaceLen(s)..]);
      } else {
        FieldsAreWords(s[WordLen(s)..]);
        PrefixIsWord(s);
      }
    }
  }

  lemma {:induction false} PrefixIsWord(s: string)
    ensures IsWord(s[..WordLen(s)])
  {
    if s != "" && SpaceLen(s) == 0 {
      PrefixIsWord(s[1..]);
      assert s[..WordLen(s)][1..] == s[1..][..WordLen(s[1..])];
      ShorterHasNoSpace(s, WordLen(s));
    }
  }

  lemma ShorterHasNoSpace(s: string, n: nat)
    requires SpaceLen(s) == 0 && 0 < n <= |s|
    ensures SpaceLen(s[..n]) == 0
  {
  }

  // ----- What procfs writes -----

  /** A set of escaped bytes as procfs uses: ASCII only, with the separators and the backslash in it. */
  ghost predicate Procfs(esc: char -> bool) {
    esc('\\') && esc(' ') && esc('\t') && esc('\n') && forall c :: esc(c) ==> c as int < 128
  }

  /** White space in a path that procfs leaves unescaped: vertical tab, form feed, carriage return, and beyond ASCII. */
  predicate StraySpace(p: string, esc: char -> bool) {
    p != "" && ((!esc(p[0]) && SpaceLen(p) > 0) || StraySpace(p[1..], esc))
  }

  lemma EscapeKeepsSpace(p: string, esc: char -> bool)
    requires IsBytes(p) && Procfs(esc) && p != "" && !esc(p[0])
    ensures SpaceLen(Escape(p, esc)) == SpaceLen(p)
  {
    var e := Escape(p, esc);
    assert e == [p[0]] + Escape(p[1..], esc);
    if |p| > 1 && !esc(p[1]) {
      assert e[1] == p[1];
      if |p| > 2 {
        assert e[2] == if esc(p[2]) then '\\' else p[2];
      }
    }
  }

  lemma PlainStep(c: char, rest: string)
    requires '0' <= c <= '9' || c == '\\'
    ensures IsWord([c] + rest) <==> IsWord(rest)
  {
    assert ([c] + rest)[1..] == rest;
  }

  lemma EscapeByteIsWord(c: char, rest: string)
    requires c as int < 256
    ensures IsWord(EscapeByte(c) + rest) <==> IsWord(rest)
  {
    var e := EscapeByte(c);
    assert e + rest == [e[0]] + ([e[1]] + ([e[2]] + ([e[3]] + rest)));
    PlainStep(e[3], rest);
    PlainStep(e[2], [e[3]] + rest);
    PlainStep(e[1], [e[2]] + ([e[3]] + rest));
    PlainStep(e[0], [e[1]] + ([e[2]] + ([e[3]] + rest)));
  }

  /** An escaped path is one word exactly when it has no stray white space. */
  lemma {:induction false} EscapedIsWord(p: string, esc: char -> bool)
    requires IsBytes(p) && Procfs(esc)
    ensures IsWord(Escape(p, esc)) <==> !StraySpace(p, esc)
  {
    if p != "" {
      EscapedIsWord(p[1..], esc);
      if esc(p[0]) {
        EscapeByteIsWord(p[0], Escape(p[1..], esc));
      } else {
        EscapeKeepsSpace(p, esc);
        assert Escape(p, esc)[1..] == Escape(p[1..], esc);
      }
    }
  }

  datatype Entry = Entry(source: string, target: string, tail: string)

  /** A line of /proc/self/mounts. */
  function Line(e: Entry, esc: char -> bool): string
    requires IsBytes(e.source) && IsBytes(e.target)
  {
    Escape(e.source, esc) + [' '] + (Escape(e.target, esc) + [' '] + e.tail)
  }

  /** The target field of a line, decoded; none when the line has fewer than two fields. */
  function TargetOf(line: string): Option<string> {
    if |Fields(line)| < 2 then None else Some(Decode(Fields(line)[1]))
  }

  /** A line's fields are those of its parts. */
  lemma LineFields(e: Entry, esc: char -> bool)
    requires IsBytes(e.source) && IsBytes(e.target)
    ensures Fields(Line(e, esc)) == Fields(Escape(e.source, esc)) + (Fields(Escape(e.target, esc)) + Fields(e.tail))
  {
    FieldsConcat(Escape(e.source, esc), ' ', Escape(e.target, esc) + [' '] + e.tail);
    FieldsConcat(Escape(e.target, esc), ' ', e.tail);
  }

  /** A mount whose source is one field of its line. */
  ghost predicate Proper(e: Entry, esc: char -> bool) {
    e.target != "" && IsBytes(e.source) && IsBytes(e.target) && |Fields(Escape(e.source, esc))| == 1
  }

  lemma EscapeNonEmpty(p: string, esc: char -> bool)
    requires IsBytes(p) && p != ""
    ensures Escape(p, esc) != ""
  {
  }

  /** Behind such a source the second field is the escaped target exactly when the target has no stray white space. */
  lemma FieldIsTargetExactly(e: Entry, esc: char -> bool)
    requires Procfs(esc) && Proper(e, esc)
    ensures var fs := Fields(Line(e, esc));
            (|fs| >= 2 && fs[1] == Escape(e.target, esc)) <==> !StraySpace(e.target, esc)
  {
    var fs, t := Fields(Line(e, esc)), Escape(e.target, esc);
    LineFields(e, esc);
    EscapeNonEmpty(e.target, esc);
    EscapedIsWord(e.target, esc);
    FieldsOfWord(t);
    FieldsAreWords(Line(e, esc));
    if IsWord(t) {
      assert fs[1] == t;
    }
  }

  /** So such a target is read back as it is. */
  lemma TargetReadsBack(e: Entry, esc: char -> bool)
    requires Procfs(esc) && Proper(e, esc) && !StraySpace(e.target, esc)
    ensures TargetOf(Line(e, esc)) == Some(e.target)
  {
    FieldIsTargetExactly(e, esc);
    DecodeUndoesEscape(e.target, esc);
  }

  /** A source of two or more fields puts its own second one in the target's place, and one of none moves the target
      and what follows it forward. */
  lemma SourceShiftsTarget(e: Entry, esc: char -> bool)
    requires IsBytes(e.source) && IsBytes(e.target)
    ensures var source, after := Fields(Escape(e.source, esc)), Fields(Escape(e.target, esc)) + Fields(e.tail);
            && (|source| >= 2 ==> TargetOf(Line(e, esc)) == Some(Decode(source[1])))
            && (|source| == 0 ==> TargetOf(Line(e, esc)) == if |after| < 2 then None else Some(Decode(after[1])))
  {
    LineFields(e, esc);
  }

  /** The bytes Linux escapes. */
  predicate LinuxEscapes(c: char) { c in " \t\n\\" }

  /** Bytes that go through as they are. */
  predicate IsPlain(p: string) { IsBytes(p) && forall c <- p :: !LinuxEscapes(c) }

  /** A target is cut at its first carriage return, which goes through unescaped. */
  lemma CarriageReturnCuts(e: Entry, head: string, more: string)
    requires IsPlain(e.source) && |Fields(e.source)| == 1
    requires e.target == head + ['\r'] + more && IsPlain(e.target) && IsWord(head) && head != ""
    ensures TargetOf(Line(e, LinuxEscapes)) == Some(head)
  {
    EscapesToItself(e.source);
    EscapesToItself(e.target);
    LineFields(e, LinuxEscapes);
    FieldsConcat(head, '\r', more);
    FieldsOfWord(head);
    assert Fields(Line(e, LinuxEscapes))[1] == head;
    assert '\\' !in head by {
      assert forall c <- head :: c in e.target;
    }
    DecodeWithoutBackslash(head);
  }

  /** For instance this one. */
  lemma CarriageReturnTarget(tail: string)
    ensures TargetOf(Line(Entry("s", "/a\rb", tail), LinuxEscapes)) == Some("/a")
  {
    assert IsWord("s") by {
      assert "s"[1..] == "";
    }
    FieldsOfWord("s");
    assert IsWord("/a") by {
      assert "/a"[1..] == "a" && "a"[1..] == "";
    }
    assert "/a\rb" == "/a" + ['\r'] + "b";
    CarriageReturnCuts(Entry("s", "/a\rb", tail), "/a", "b");
  }

  /** A source with one puts what follows it in the target's place. */
  lemma CarriageReturnReplaces(e: Entry, head: string, more: string)
    requires e.source == head + ['\r'] + more && IsPlain(e.source) && IsBytes(e.target)
    requires IsWord(head) && head != "" && IsWord(more) && more != ""
    ensures TargetOf(Line(e, LinuxEscapes)) == Some(more)
  {
    EscapesToItself(e.source);
    FieldsConcat(head, '\r', more);
    FieldsOfWord(head);
    FieldsOfWord(more);
    SourceShiftsTarget(e, LinuxEscapes);
    assert Fields(e.source)[1] == more;
    assert '\\' !in more by {
      assert forall c <- more :: c in e.source;
    }
    DecodeWithoutBackslash(more);
  }

  /** So this mount is not found under its own target. */
  lemma CarriageReturnSource(tail: string)
    ensures TargetOf(Line(Entry("a\rb", "/t", tail), LinuxEscapes)) == Some("b")
  {
    assert IsWord("a") by {
      assert "a"[1..] == "";
    }
    assert IsWord("b") by {
      assert "b"[1..] == "";
    }
    assert "a\rb" == "a" + ['\r'] + "b";
    CarriageReturnReplaces(Entry("a\rb", "/t", tail), "a", "b");
  }

  lemma {:induction false} EscapesToItself(p: string)
    requires IsBytes(p) && forall c <- p :: !LinuxEscapes(c)
    ensures Escape(p, LinuxEscapes) == p
  {
    if p != "" {
      assert p[0] in p;
      EscapesToItself(p[1..]);
    }
  }

  // ----- Listing, deepest first -----

  /** b lies strictly below a. */
  predicate Below(b: string, a: string) {
    HasPrefix(b, a + ['/'])
  }

  predicate AtOrBelow(t: string, prefix: string) {
    t == prefix || Below(t, prefix)
  }

  /** The decoded targets at or below prefix, in file order. */
  ghost function Matches(lines: seq<string>, prefix: string): seq<string> {
    if lines == [] then []
    else
      var t := TargetOf(lines[|lines| - 1]);
      Matches(lines[..|lines| - 1], prefix) + if t.Some? && AtOrBelow(t.value, prefix) then [t.value] else []
  }

  function Slashes(s: string): nat {
    if s == "" then 0 else (if s[0] == '/' then 1 else 0) + Slashes(s[1..])
  }

  lemma {:induction false} SlashesConcat(a: string, b: string)
    ensures Slashes(a + b) == Slashes(a) + Slashes(b)
  {
    if a == "" {
      assert a + b == b;
    } else {
      assert (a + b)[1..] == a[1..] + b;
      SlashesConcat(a[1..], b);
    }
  }

  lemma BelowHasMoreSlashes(b: string, a: string)
    requires Below(b, a)
    ensures Slashes(b) > Slashes(a)
  {
    var rest := b[|a| + 1..];
    assert b == (a + ['/']) + rest;
    SlashesConcat(a + ['/'], rest);
    SlashesConcat(a, ['/']);
  }

  /** The sort order: more slashes first, ties in descending text order. */
  predicate MountLe(a: string, b: string) {
    Slashes(a) > Slashes(b) || (Slashes(a) == Slashes(b) && StringLe(b, a))
  }

  lemma MountOrder()
    ensures TotalOrder(MountLe)
  {
    StringOrder();
  }

  /** Sorted that way, every mount comes before the mounts it lies below. */
  lemma NestedFirst(s: seq<string>, i: nat, j: nat)
    requires Sorted(MountLe, s) && i < |s| && j < |s| && Below(s[j], s[i])
    ensures j < i
  {
    BelowHasMoreSlashes(s[j], s[i]);
  }

  /** parseMountsUnder: refuses the root directory, else lists the matches deepest first. */
  method ParseMountsUnder(lines: seq<string>, root: string) returns (r: Option<seq<string>>)
    ensures r.None? <==> TrimSlashes(root) == ""
    ensures r.Some? ==> multiset(r.value) == multiset(Matches(lines, TrimSlashes(root)))
    ensures r.Some? ==> Sorted(MountLe, r.value)
    ensures r.Some? ==> forall i, j | 0 <= i < |r.value| && 0 <= j < |r.value| && Below(r.value[j], r.value[i]) :: j < i
  {
    var prefix := TrimSlashes(root);
    if prefix == "" {
      return None;
    }
    var matches := [];
    for i := 0 to |lines|
      invariant matches == Matches(lines[..i], prefix)
    {
      assert lines[..i + 1][..i] == lines[..i];
      var fields := Fields(lines[i]);
      if |fields| < 2 {
        continue;
      }
      var target := DecodeMountPath(fields[1]);
      if target == prefix || HasPrefix(target, prefix + ['/']) {
        matches := matches + [target];
      }
    }
    assert lines[..|lines|] == lines;
    MountOrder();
    var sorted := Sort(MountLe, matches);
    forall i: nat, j: nat | i < |sorted| && j < |sorted| && Below(sorted[j], sorted[i]) ensures j < i {
      NestedFirst(sorted, i, j);
    }
    r := Some(sorted);
  }

  // ----- Against the mount table -----

  ghost function Table(es: seq<Entry>, esc: char -> bool): seq<string>
    requires forall i | 0 <= i < |es| :: Proper(es[i], esc)
  {
    if es == [] then [] else
      assert Proper(es[|es| - 1], esc);
      Table(es[..|es| - 1], esc) + [Line(es[|es| - 1], esc)]
  }

  /** The mounted targets at or below prefix, with multiplicity. */
  ghost function MountedUnder(es: seq<Entry>, prefix: string): seq<string> {
    if es == [] then []
    else
      var t := es[|es| - 1].target;
      MountedUnder(es[..|es| - 1], prefix) + if AtOrBelow(t, prefix) then [t] else []
  }

  /** For a table without stray white space the matches are exactly the mounted targets. */
  lemma {:induction false} MatchesAreMounted(es: seq<Entry>, esc: char -> bool, prefix: string)
    requires Procfs(esc) && forall i | 0 <= i < |es| :: Proper(es[i], esc) && !StraySpace(es[i].target, esc)
    ensures Matches(Table(es, esc), prefix) == MountedUnder(es, prefix)
  {
    if es != [] {
      var init, last := es[..|es| - 1], es[|es| - 1];
      MatchesAreMounted(init, esc, prefix);
      var lines := Table(es, esc);
      assert lines[..|lines| - 1] == Table(init, esc);
      TargetReadsBack(last, esc);
    }
  }
}
