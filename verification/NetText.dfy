/** The printed form of IPv4 addresses and networks, used as store keys. */
module NetText {
  import opened Basics
  import opened Alloc

  function Digit(d: nat): (c: char)
    requires d < 10
  {
    ('0' as int + d) as char
  }

  function Digits(n: nat): (s: string) {
    if n < 10 then [Digit(n)] else Digits(n / 10) + [Digit(n % 10)]
  }

  function PrintAddr(a: Addr): (s: string) {
    Digits(a / 0x100_0000) + "." + (Digits(a / 0x1_0000 % 0x100) + "." +
    (Digits(a / 0x100 % 0x100) + "." + Digits(a % 0x100)))
  }

  function PrintNet(n: Net): (s: string) {
    PrintAddr(n.addr) + "/" + Digits(n.plen)
  }

  predicate Numeric(s: string) {
    forall k :: 0 <= k < |s| ==> '0' <= s[k] <= '9'
  }

  lemma {:induction false} DigitsAreNumeric(n: nat)
    ensures Numeric(Digits(n)) && Digits(n) != []
  {
    if n >= 10 { DigitsAreNumeric(n / 10); }
  }

  lemma {:induction false} DigitsInjective(m: nat, n: nat)
    requires Digits(m) == Digits(n)
    ensures m == n
  {
    if m >= 10 { DigitsAreNumeric(m / 10); }
    if n >= 10 { DigitsAreNumeric(n / 10); }
    var s, t := Digits(m), Digits(n);
    assert s[|s| - 1] == Digit(m % 10) && t[|t| - 1] == Digit(n % 10);
    if m >= 10 && n >= 10 {
      assert s[..|s| - 1] == Digits(m / 10) && t[..|t| - 1] == Digits(n / 10);
      DigitsInjective(m / 10, n / 10);
    }
  }

  lemma FourParts(a: string, b: string, c: string, d: string, w: string, x: string, y: string, z: string)
    requires '.' !in a && '.' !in b && '.' !in c && '.' !in w && '.' !in x && '.' !in y
    requires a + "." + (b + "." + (c + "." + d)) == w + "." + (x + "." + (y + "." + z))
    ensures a == w && b == x && c == y && d == z
  {
    SplitsUniquely(a, b + "." + (c + "." + d), w, x + "." + (y + "." + z), '.');
    SplitsUniquely(b, c + "." + d, x, y + "." + z, '.');
    SplitsUniquely(c, d, y, z, '.');
  }

  lemma NoDot(n: nat)
    ensures '.' !in Digits(n)
  {
    DigitsAreNumeric(n);
  }

  /** Any injective printing without dots stays injective when four parts are joined by dots. */
  lemma DottedInjective(f: nat -> string, a: nat, b: nat, c: nat, d: nat, w: nat, x: nat, y: nat, z: nat)
    requires forall n :: '.' !in f(n)
    requires forall m, n :: f(m) == f(n) ==> m == n
    requires f(a) + "." + (f(b) + "." + (f(c) + "." + f(d))) == f(w) + "." + (f(x) + "." + (f(y) + "." + f(z)))
    ensures a == w && b == x && c == y && d == z
  {
    FourParts(f(a), f(b), f(c), f(d), f(w), f(x), f(y), f(z));
  }

  lemma DigitsSeparable()
    ensures forall n: nat :: '.' !in Digits(n)
    ensures forall m: nat, n: nat :: Digits(m) == Digits(n) ==> m == n
  {
    forall n: nat ensures '.' !in Digits(n) {
      NoDot(n);
    }
    forall m: nat, n: nat | Digits(m) == Digits(n) ensures m == n {
      DigitsInjective(m, n);
    }
  }

  lemma OctetsDetermine(a: Addr, b: Addr)
    requires a / 0x100_0000 == b / 0x100_0000 && a / 0x1_0000 % 0x100 == b / 0x1_0000 % 0x100
    requires a / 0x100 % 0x100 == b / 0x100 % 0x100 && a % 0x100 == b % 0x100
    ensures a == b
  {
    assert a / 0x1_0000 == b / 0x1_0000;
    assert a / 0x100 == b / 0x100;
  }

  lemma PrintAddrInjective(a: Addr, b: Addr)
    requires PrintAddr(a) == PrintAddr(b)
    ensures a == b
  {
    DigitsSeparable();
    DottedInjective(Digits, a / 0x100_0000, a / 0x1_0000 % 0x100, a / 0x100 % 0x100, a % 0x100,
                    b / 0x100_0000, b / 0x1_0000 % 0x100, b / 0x100 % 0x100, b % 0x100);
    OctetsDetermine(a, b);
  }

  lemma PrintAddrChars(a: Addr)
    ensures forall k :: 0 <= k < |PrintAddr(a)| ==> '0' <= PrintAddr(a)[k] <= '9' || PrintAddr(a)[k] == '.'
  {
    DigitsAreNumeric(a / 0x100_0000);
    DigitsAreNumeric(a / 0x1_0000 % 0x100);
    DigitsAreNumeric(a / 0x100 % 0x100);
    DigitsAreNumeric(a % 0x100);
  }

  /** Distinct networks print differently, host bits included. */
  lemma PrintNetInjective(m: Net, n: Net)
    requires PrintNet(m) == PrintNet(n)
    ensures m == n
  {
    PrintAddrChars(m.addr);
    PrintAddrChars(n.addr);
    SplitsUniquely(PrintAddr(m.addr), Digits(m.plen), PrintAddr(n.addr), Digits(n.plen), '/');
    PrintAddrInjective(m.addr, n.addr);
    DigitsInjective(m.plen, n.plen);
  }

  // ----- What the text says --------------------------------------------------------------------

  function Decimal(s: string): (n: nat)
    requires Numeric(s)
  {
    if s == "" then 0 else 10 * Decimal(s[..|s| - 1]) + (s[|s| - 1] as int - '0' as int)
  }

  /** `s` writes `n` in decimal, without leading zeros. */
  ghost predicate Numeral(s: string, n: nat) {
    Numeric(s) && s != "" && (|s| > 1 ==> s[0] != '0') && Decimal(s) == n
  }

  lemma {:induction false} DigitsAreNumeral(n: nat)
    ensures Numeral(Digits(n), n)
  {
    if n >= 10 {
      DigitsAreNumeral(n / 10);
      var s := Digits(n);
      assert s[..|s| - 1] == Digits(n / 10);
      if |Digits(n / 10)| == 1 { assert Decimal(Digits(n / 10)[..0]) == 0; }
    } else {
      assert Digits(n)[..0] == "";
    }
  }

  /** `s` writes the address as four octets in decimal, the highest first. */
  ghost predicate Quad(s: string, a: Addr, w: string, x: string, y: string, z: string, p: nat, q: nat, r: nat, t: nat) {
    && s == w + "." + (x + "." + (y + "." + z))
    && Numeral(w, p) && Numeral(x, q) && Numeral(y, r) && Numeral(z, t)
    && p < 256 && q < 256 && r < 256 && t < 256 && a == ((p * 256 + q) * 256 + r) * 256 + t
  }

  ghost predicate DottedQuad(s: string, a: Addr) {
    exists w, x, y, z, p: nat, q: nat, r: nat, t: nat :: Quad(s, a, w, x, y, z, p, q, r, t)
  }

  lemma OctetsCompose(a: Addr)
    ensures var p, q, r, t := a / 0x100_0000, a / 0x1_0000 % 0x100, a / 0x100 % 0x100, a % 0x100;
            p < 256 && q < 256 && r < 256 && t < 256 && a == ((p * 256 + q) * 256 + r) * 256 + t
  {
    assert a / 0x100 == a / 0x1_0000 * 256 + a / 0x100 % 0x100;
    assert a / 0x1_0000 == a / 0x100_0000 * 256 + a / 0x1_0000 % 0x100;
  }

  lemma PrintAddrIsDottedQuad(a: Addr)
    ensures DottedQuad(PrintAddr(a), a)
  {
    var p, q, r, t := a / 0x100_0000, a / 0x1_0000 % 0x100, a / 0x100 % 0x100, a % 0x100;
    OctetsCompose(a);
    DigitsAreNumeral(p);
    DigitsAreNumeral(q);
    DigitsAreNumeral(r);
    DigitsAreNumeral(t);
    assert Quad(PrintAddr(a), a, Digits(p), Digits(q), Digits(r), Digits(t), p, q, r, t);
  }

  /** The address as a dotted quad, a slash, and the prefix length in decimal. */
  ghost predicate CidrText(s: string, a: Addr, plen: Plen) {
    exists quad, len :: DottedQuad(quad, a) && Numeral(len, plen) && s == quad + "/" + len
  }

  lemma PrintNetIsCidr(n: Net)
    ensures CidrText(PrintNet(n), n.addr, n.plen)
  {
    PrintAddrIsDottedQuad(n.addr);
    DigitsAreNumeral(n.plen);
  }

  lemma PrintNetHasNoColon(n: Net)
    ensures ':' !in PrintNet(n)
  {
    PrintAddrChars(n.addr);
    DigitsAreNumeric(n.plen);
  }
}
