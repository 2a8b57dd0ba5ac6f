/**
 IPv4 addresses as unsigned 32-bit values, their octets and their CIDR text
 (internal/cni/subnet.go: ipToUint32, uint32ToIP and the candidate text of
 firstFreeLocked). Go's 32-bit arithmetic is written out: shifts and additions
 are taken modulo 2^32, byte conversions modulo 256.
 */
module Ipv4 {
  import opened Text

  const SPACE := 0x1_0000_0000

  type Address = v: int | 0 <= v < SPACE

  newtype Octet = v: int | 0 <= v < 256

  datatype Quad = Quad(a: Octet, b: Octet, c: Octet, d: Octet)

  function Pow2(n: nat): (r: nat)
    ensures r >= 1
  {
    if n == 0 then 1 else 2 * Pow2(n - 1)
  }

  lemma {:induction false} Pow2Add(m: nat, n: nat)
    ensures Pow2(m + n) == Pow2(m) * Pow2(n)
  {
    if m > 0 {
      Pow2Add(m - 1, n);
    }
  }

  lemma {:induction false} Pow2Monotone(m: nat, n: nat)
    requires m < n
    ensures 2 * Pow2(m) <= Pow2(n)
  {
    if m + 1 < n {
      Pow2Monotone(m, n - 1);
    }
  }

  lemma Pow2Of32()
    ensures Pow2(32) == SPACE
  {
    assert Pow2(8) == 256;
    Pow2Add(8, 8);
    Pow2Add(16, 16);
  }

  /** uint32(1) << n for a 32-bit word: bits shifted past the top are lost. */
  function ShiftOne(n: nat): Address {
    Pow2(n) % SPACE
  }

  lemma ShiftOneExact(n: nat)
    requires n <= 32
    ensures ShiftOne(n) == if n <= 31 then Pow2(n) else 0
  {
    Pow2Of32();
    if n <= 31 {
      Pow2Monotone(n, 32);
    }
  }

  /** uint32ToIP */
  function ToQuad(v: Address): Quad {
    Quad((v / 0x100_0000 % 256) as Octet, (v / 0x1_0000 % 256) as Octet, (v / 0x100 % 256) as Octet, (v % 256) as Octet)
  }

  /** ipToUint32: the four shifted octets occupy disjoint bits, so their bitwise or is their sum. */
  function FromQuad(q: Quad): Address {
    q.a as int * 0x100_0000 + q.b as int * 0x1_0000 + q.c as int * 0x100 + q.d as int
  }

  /** A word is its four base-256 digits. */
  lemma FourDigits(a: int, b: int, c: int, d: int)
    requires 0 <= a < 256 && 0 <= b < 256 && 0 <= c < 256 && 0 <= d < 256
    ensures var v := a * 0x100_0000 + b * 0x1_0000 + c * 0x100 + d;
            v / 0x100_0000 % 256 == a && v / 0x1_0000 % 256 == b && v / 0x100 % 256 == c && v % 256 == d
  {
    var v := a * 0x100_0000 + b * 0x1_0000 + c * 0x100 + d;
    assert v / 0x100 == a * 0x1_0000 + b * 0x100 + c;
    assert v / 0x1_0000 == a * 0x100 + b;
    assert v / 0x100_0000 == a;
  }

  lemma QuadRoundTrip(v: Address)
    ensures FromQuad(ToQuad(v)) == v
  {
    var h, d := v / 0x100, v % 0x100;
    var g, c := h / 0x100, h % 0x100;
    var a, b := g / 0x100, g % 0x100;
    assert v == a * 0x100_0000 + b * 0x1_0000 + c * 0x100 + d;
    FourDigits(a, b, c, d);
  }

  lemma AddressRoundTrip(q: Quad)
    ensures ToQuad(FromQuad(q)) == q
  {
    FourDigits(q.a as int, q.b as int, q.c as int, q.d as int);
  }

  // ----- Decimal text -----

  function Digit(d: nat): char
    requires d < 10
  {
    ('0' as int + d) as char
  }

  /** The %d text of a natural number. */
  function Decimal(n: nat): string {
    if n < 10 then [Digit(n)] else Decimal(n / 10) + [Digit(n % 10)]
  }

  /** Reads a decimal text back. */
  ghost function Value(s: string): int {
    if s == "" then 0 else 10 * Value(s[..|s| - 1]) + (s[|s| - 1] as int - '0' as int)
  }

  lemma {:induction false} DecimalDigits(n: nat)
    ensures Value(Decimal(n)) == n
    ensures forall c <- Decimal(n) :: '0' <= c <= '9'
  {
    if n >= 10 {
      DecimalDigits(n / 10);
      assert Decimal(n)[..|Decimal(n)| - 1] == Decimal(n / 10);
    } else {
      assert Value(Decimal(n)[..0]) == 0;
    }
  }

  /** net.IP.String of a four-byte address. */
  function Dotted(q: Quad): string {
    Decimal(q.a as int) + ['.'] + (Decimal(q.b as int) + ['.'] + (Decimal(q.c as int) + ['.'] + Decimal(q.d as int)))
  }

  /** The "%s/%d" text of a block. */
  function Cidr(v: Address, prefixLen: nat): string {
    Dotted(ToQuad(v)) + ['/'] + Decimal(prefixLen)
  }

  lemma DottedInjective(q: Quad, q': Quad)
    requires Dotted(q) == Dotted(q')
    ensures q == q'
  {
    DecimalDigits(q.a as int);
    DecimalDigits(q'.a as int);
    DecimalDigits(q.b as int);
    DecimalDigits(q'.b as int);
    DecimalDigits(q.c as int);
    DecimalDigits(q'.c as int);
    DecimalDigits(q.d as int);
    DecimalDigits(q'.d as int);
    var t2 := Decimal(q.c as int) + ['.'] + Decimal(q.d as int);
    var t2' := Decimal(q'.c as int) + ['.'] + Decimal(q'.d as int);
    var t1, t1' := Decimal(q.b as int) + ['.'] + t2, Decimal(q'.b as int) + ['.'] + t2';
    SplitUnique(Decimal(q.a as int), t1, Decimal(q'.a as int), t1', '.');
    SplitUnique(Decimal(q.b as int), t2, Decimal(q'.b as int), t2', '.');
    SplitUnique(Decimal(q.c as int), Decimal(q.d as int), Decimal(q'.c as int), Decimal(q'.d as int), '.');
  }

  lemma NoSlashInDotted(q: Quad)
    ensures '/' !in Dotted(q)
  {
    DecimalDigits(q.a as int);
    DecimalDigits(q.b as int);
    DecimalDigits(q.c as int);
    DecimalDigits(q.d as int);
  }

  /** Two CIDR texts are equal exactly when the blocks are. */
  lemma CidrInjective(v: Address, p: nat, v': Address, p': nat)
    ensures Cidr(v, p) == Cidr(v', p') <==> v == v' && p == p'
  {
    if Cidr(v, p) == Cidr(v', p') {
      NoSlashInDotted(ToQuad(v));
      NoSlashInDotted(ToQuad(v'));
      SplitUnique(Dotted(ToQuad(v)), Decimal(p), Dotted(ToQuad(v')), Decimal(p'), '/');
      DottedInjective(ToQuad(v), ToQuad(v'));
      QuadRoundTrip(v);
      QuadRoundTrip(v');
      DecimalDigits(p);
      DecimalDigits(p');
    }
  }

  // ----- What the text says -----

  predicate AllDigits(s: string) {
    forall i | 0 <= i < |s| :: '0' <= s[i] <= '9'
  }

  /** s is how n is written in decimal: digits only, no leading zero, and read as n. */
  ghost predicate Writes(s: string, n: int) {
    s != "" && AllDigits(s) && (|s| > 1 ==> s[0] != '0') && Value(s) == n
  }

  lemma {:induction false} DecimalWrites(n: nat)
    ensures Writes(Decimal(n), n)
  {
    DecimalDigits(n);
    assert forall i | 0 <= i < |Decimal(n)| :: Decimal(n)[i] in Decimal(n);
    if n >= 10 {
      DecimalWrites(n / 10);
      LeadingDigit(n / 10);
    }
  }

  lemma {:induction false} LeadingDigit(n: nat)
    requires n > 0
    ensures Decimal(n)[0] != '0'
  {
    if n >= 10 {
      LeadingDigit(n / 10);
    }
  }

  lemma {:induction false} ValueIsNatural(s: string)
    requires AllDigits(s)
    ensures Value(s) >= 0 && (s != "" && s[0] != '0' ==> Value(s) > 0)
  {
    if s != "" {
      ValueIsNatural(s[..|s| - 1]);
    }
  }

  /** There is only one way to write a number. */
  lemma {:induction false} WritingIsUnique(s: string, t: string, n: int)
    requires Writes(s, n) && Writes(t, n)
    ensures s == t
  {
    var i, j := s[..|s| - 1], t[..|t| - 1];
    ValueIsNatural(i);
    ValueIsNatural(j);
    assert Value(i) == Value(j) && s[|s| - 1] == t[|t| - 1] by {
      SameQuotient(Value(i), s[|s| - 1] as int - '0' as int, Value(j), t[|t| - 1] as int - '0' as int);
    }
    assert s == i + [s[|s| - 1]] && t == j + [t[|t| - 1]];
    if i != "" && j != "" {
      WritingIsUnique(i, j, Value(i));
    }
  }

  lemma SameQuotient(a: int, x: int, b: int, y: int)
    requires 10 * a + x == 10 * b + y && 0 <= x < 10 && 0 <= y < 10
    ensures a == b && x == y
  {
  }

  /** The text is these four numbers with dots between them, and a prefix length behind a slash. */
  ghost predicate Spells(text: string, w: int, x: int, y: int, z: int, p: int,
                         a: string, b: string, c: string, d: string, l: string) {
    && Writes(a, w) && Writes(b, x) && Writes(c, y) && Writes(d, z) && Writes(l, p)
    && text == a + "." + b + "." + c + "." + d + "/" + l
  }

  /** The text names the block: the four octets of the address from the highest down, then the prefix length. */
  ghost predicate Names(text: string, v: int, p: int) {
    exists a, b, c, d, l ::
      Spells(text, v / 0x100_0000, v / 0x1_0000 % 256, v / 0x100 % 256, v % 256, p, a, b, c, d, l)
  }

  /** A block's text is the one that names it in dotted decimal. */
  lemma CidrReads(v: Address, p: nat, text: string)
    ensures text == Cidr(v, p) <==> Names(text, v, p)
  {
    Octets(v);
    var q := ToQuad(v);
    QuadSpelled(q, p);
    if Names(text, v, p) {
      var a, b, c, d, l :|
        Spells(text, v / 0x100_0000, v / 0x1_0000 % 256, v / 0x100 % 256, v % 256, p, a, b, c, d, l);
      SpelledIsCidr(v, p, text, a, b, c, d, l);
    }
  }

  lemma SpelledIsCidr(v: Address, p: nat, text: string, a: string, b: string, c: string, d: string, l: string)
    requires Spells(text, v / 0x100_0000, v / 0x1_0000 % 256, v / 0x100 % 256, v % 256, p, a, b, c, d, l)
    ensures text == Cidr(v, p)
  {
    Octets(v);
    SpellingIsUnique(ToQuad(v), p, text, a, b, c, d, l);
  }

  lemma Octets(v: Address)
    ensures var q := ToQuad(v);
            && q.a as int == v / 0x100_0000 && q.b as int == v / 0x1_0000 % 256
            && q.c as int == v / 0x100 % 256 && q.d as int == v % 256
  {
  }

  lemma Flat(a: string, b: string, c: string, d: string, l: string)
    ensures a + ['.'] + (b + ['.'] + (c + ['.'] + d)) + ['/'] + l == a + "." + b + "." + c + "." + d + "/" + l
  {
  }

  lemma QuadSpelled(q: Quad, p: nat)
    ensures Spells(Dotted(q) + ['/'] + Decimal(p), q.a as int, q.b as int, q.c as int, q.d as int, p,
                   Decimal(q.a as int), Decimal(q.b as int), Decimal(q.c as int), Decimal(q.d as int), Decimal(p))
  {
    DecimalWrites(q.a as int);
    DecimalWrites(q.b as int);
    DecimalWrites(q.c as int);
    DecimalWrites(q.d as int);
    DecimalWrites(p);
    Flat(Decimal(q.a as int), Decimal(q.b as int), Decimal(q.c as int), Decimal(q.d as int), Decimal(p));
  }

  lemma SpellingIsUnique(q: Quad, p: nat, text: string, a: string, b: string, c: string, d: string, l: string)
    requires Spells(text, q.a as int, q.b as int, q.c as int, q.d as int, p, a, b, c, d, l)
    ensures text == Dotted(q) + ['/'] + Decimal(p)
  {
    QuadSpelled(q, p);
    WritingIsUnique(a, Decimal(q.a as int), q.a as int);
    WritingIsUnique(b, Decimal(q.b as int), q.b as int);
    WritingIsUnique(c, Decimal(q.c as int), q.c as int);
    WritingIsUnique(d, Decimal(q.d as int), q.d as int);
    WritingIsUnique(l, Decimal(p), p);
  }
}
