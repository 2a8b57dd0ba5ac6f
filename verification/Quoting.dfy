/**
 Go's %q for strings (strconv.Quote), as error texts use it. Which characters count as printable is a parameter:
 quoting is one to one whatever they are.
 */
module Quoting {

  function HexDigit(d: nat): char
    requires d < 16
  {
    if d < 10 then ('0' as int + d) as char else ('a' as int + (d - 10)) as char
  }

  /** The last digits of n, base 16. */
  function Hex(n: nat, width: nat): (r: string)
    ensures |r| == width
  {
    if width == 0 then "" else Hex(n / 16, width - 1) + [HexDigit(n % 16)]
  }

  function Power16(n: nat): nat { if n == 0 then 1 else 16 * Power16(n - 1) }

  lemma {:induction false} HexInjective(m: nat, n: nat, width: nat)
    requires m < Power16(width) && n < Power16(width) && Hex(m, width) == Hex(n, width)
    ensures m == n
  {
    if width > 0 {
      var a, b := Hex(m, width), Hex(n, width);
      assert a[..width - 1] == Hex(m / 16, width - 1) && b[..width - 1] == Hex(n / 16, width - 1);
      assert a[width - 1] == HexDigit(m % 16) && b[width - 1] == HexDigit(n % 16);
      HexInjective(m / 16, n / 16, width - 1);
    }
  }

  /** How one character is written between the quotes. */
  datatype Form = Plain | Named(letter: char) | Coded(letter: char, width: nat)

  function FormOf(c: char, printable: char -> bool): Form {
    if c == '"' || c == '\\' then Named(c)
    else if printable(c) then Plain
    else if c == '\U{07}' then Named('a')
    else if c == '\U{08}' then Named('b')
    else if c == '\U{0C}' then Named('f')
    else if c == '\n' then Named('n')
    else if c == '\r' then Named('r')
    else if c == '\t' then Named('t')
    else if c == '\U{0B}' then Named('v')
    else if c < ' ' || c == '\U{7F}' then Coded('x', 2)
    else if c as int < 0x1_0000 then Coded('u', 4)
    else Coded('U', 8)
  }

  function QuoteChar(c: char, printable: char -> bool): (r: string)
    ensures r != ""
  {
    match FormOf(c, printable)
    case Plain => [c]
    case Named(k) => ['\\', k]
    case Coded(k, n) => ['\\', k] + Hex(c as int, n)
  }

  function QuoteBody(s: string, printable: char -> bool): string {
    if s == "" then "" else QuoteChar(s[0], printable) + QuoteBody(s[1..], printable)
  }

  function Quote(s: string, printable: char -> bool): string {
    ['"'] + QuoteBody(s, printable) + ['"']
  }

  /** A text of printable characters, quotes and backslashes aside, stands between the quotes as it is. */
  lemma {:induction false} PlainIsQuotedAsItIs(s: string, printable: char -> bool)
    requires forall i | 0 <= i < |s| :: printable(s[i]) && s[i] != '"' && s[i] != '\\'
    ensures Quote(s, printable) == "\"" + s + "\""
  {
    if s != "" {
      PlainIsQuotedAsItIs(s[1..], printable);
      var rest := Quote(s[1..], printable);
      assert QuoteBody(s[1..], printable) == rest[1..|rest| - 1] == s[1..];
      assert QuoteBody(s, printable) == [s[0]] + s[1..] == s;
    }
  }

  /** The letter behind the backslash tells the form. */
  lemma SameForm(c: char, d: char, p: char -> bool, x: string, y: string)
    requires QuoteChar(c, p) + x == QuoteChar(d, p) + y
    ensures FormOf(c, p) == FormOf(d, p) && (!FormOf(c, p).Coded? ==> c == d)
  {
    var a, b := QuoteChar(c, p) + x, QuoteChar(d, p) + y;
    assert a[0] == QuoteChar(c, p)[0] && b[0] == QuoteChar(d, p)[0];
    if !FormOf(c, p).Plain? && !FormOf(d, p).Plain? {
      assert a[1] == QuoteChar(c, p)[1] && b[1] == QuoteChar(d, p)[1];
    }
  }

  lemma CodeFits(c: char, p: char -> bool)
    requires FormOf(c, p).Coded?
    ensures c as int < Power16(FormOf(c, p).width)
  {
    assert Power16(2) == 0x100 && Power16(4) == 0x1_0000;
    assert Power16(8) == 0x1_0000_0000 by {
      assert Power16(6) == 0x100_0000;
    }
  }

  lemma SameChar(c: char, d: char, p: char -> bool, x: string, y: string)
    requires QuoteChar(c, p) + x == QuoteChar(d, p) + y
    ensures c == d && x == y
  {
    SameForm(c, d, p, x, y);
    if FormOf(c, p).Coded? {
      var n := FormOf(c, p).width;
      var a, b := QuoteChar(c, p) + x, QuoteChar(d, p) + y;
      assert a[2..2 + n] == Hex(c as int, n) && b[2..2 + n] == Hex(d as int, n);
      CodeFits(c, p);
      CodeFits(d, p);
      HexInjective(c as int, d as int, n);
    }
    assert x == (QuoteChar(c, p) + x)[|QuoteChar(c, p)|..];
    assert y == (QuoteChar(d, p) + y)[|QuoteChar(d, p)|..];
  }

  lemma {:induction false} SameBody(s: string, t: string, p: char -> bool)
    requires QuoteBody(s, p) == QuoteBody(t, p)
    ensures s == t
  {
    if s != "" && t != "" {
      SameChar(s[0], t[0], p, QuoteBody(s[1..], p), QuoteBody(t[1..], p));
      SameBody(s[1..], t[1..], p);
      assert s == [s[0]] + s[1..] && t == [t[0]] + t[1..];
    }
  }

  /** Different strings are quoted differently, and behind a common prefix too. */
  lemma QuoteInjective(prefix: string, s: string, t: string, p: char -> bool)
    requires prefix + Quote(s, p) == prefix + Quote(t, p)
    ensures s == t
  {
    SameRest(prefix, Quote(s, p), Quote(t, p));
    Unquoted(QuoteBody(s, p), QuoteBody(t, p));
    SameBody(s, t, p);
  }

  lemma SameRest(prefix: string, a: string, b: string)
    requires prefix + a == prefix + b
    ensures a == b
  {
    assert a == (prefix + a)[|prefix|..] && b == (prefix + b)[|prefix|..];
  }

  lemma Unquoted(a: string, b: string)
    requires ['"'] + a + ['"'] == ['"'] + b + ['"']
    ensures a == b
  {
    var x, y := ['"'] + a + ['"'], ['"'] + b + ['"'];
    assert a == x[1..|x| - 1] && b == y[1..|y| - 1];
  }
}
