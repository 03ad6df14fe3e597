/** Text: numbers written out in a base, and the byte order of strings. */
module Text {
  function DigitChar(d: nat): (c: char)
    requires d < 16
    ensures c in "0123456789abcdef"
    ensures d < 10 ==> c in "0123456789"
  {
    "0123456789abcdef"[d]
  }

  lemma DigitCharsDiffer(d: nat, e: nat)
    requires d < 16 && e < 16 && DigitChar(d) == DigitChar(e)
    ensures d == e
  {
    var digits := "0123456789abcdef";
    assert forall i, j :: 0 <= i < j < 16 ==> digits[i] != digits[j];
  }

  datatype Radix = Dec | Hexa

  function Base(r: Radix): nat {
    if r.Dec? then 10 else 16
  }

  function Upper(n: nat, r: Radix): nat {
    if r.Dec? then n / 10 else n / 16
  }

  function Last(n: nat, r: Radix): (d: nat)
    ensures d < Base(r)
  {
    if r.Dec? then n % 10 else n % 16
  }

  /** n written out, without leading zeros. */
  function Digits(n: nat, r: Radix): (s: string)
    ensures |s| > 0
    ensures |s| > 1 <==> n >= Base(r)
    ensures forall i :: 0 <= i < |s| ==> s[i] in "0123456789abcdef" && (r.Dec? ==> s[i] in "0123456789")
  {
    if n < Base(r) then [DigitChar(n)] else Digits(Upper(n, r), r) + [DigitChar(Last(n, r))]
  }

  /** %d */
  function Decimal(n: nat): (s: string)
    ensures |s| > 0
    ensures forall c :: c in s ==> c in "0123456789"
  {
    Digits(n, Dec)
  }

  /** %x */
  function Hex(n: nat): (s: string)
    ensures forall c :: c in s ==> c in "0123456789abcdef"
  {
    Digits(n, Hexa)
  }

  lemma {:induction false} DigitsInjective(m: nat, n: nat, r: Radix)
    requires Digits(m, r) == Digits(n, r)
    ensures m == n
  {
    var s := Digits(m, r);
    if m < Base(r) {
      DigitCharsDiffer(m, n);
    } else {
      assert s[|s| - 1] == DigitChar(Last(m, r)) == DigitChar(Last(n, r));
      DigitCharsDiffer(Last(m, r), Last(n, r));
      assert s[..|s| - 1] == Digits(Upper(m, r), r) == Digits(Upper(n, r), r);
      DigitsInjective(Upper(m, r), Upper(n, r), r);
    }
  }

  lemma DecimalInjective(m: nat, n: nat)
    requires Decimal(m) == Decimal(n)
    ensures m == n
  {
    DigitsInjective(m, n, Dec);
  }

  lemma HexInjective(m: nat, n: nat)
    requires Hex(m) == Hex(n)
    ensures m == n
  {
    DigitsInjective(m, n, Hexa);
  }

  // ---- splitting at a separator ------------------------------------------------------------

  /** Text up to a separator it does not contain is determined by the whole. */
  lemma {:induction false} SplitUnique(a: string, x: string, b: string, y: string, sep: char)
    requires sep !in a && sep !in b && a + [sep] + x == b + [sep] + y
    ensures a == b && x == y
  {
    var s := a + [sep] + x;
    assert s[|a|] == sep && forall i :: 0 <= i < |a| ==> s[i] == a[i];
    assert s[|b|] == sep && forall i :: 0 <= i < |b| ==> s[i] == b[i];
    assert |a| == |b|;
    assert a == s[..|a|] && b == s[..|b|];
    assert x == s[|a| + 1..] && y == s[|b| + 1..];
  }

  /** Likewise for the text after a separator it does not contain. */
  lemma SplitUniqueFromRight(a: string, x: string, b: string, y: string, sep: char)
    requires sep !in x && sep !in y && a + [sep] + x == b + [sep] + y
    ensures a == b && x == y
  {
    var s := a + [sep] + x;
    assert s[|a|] == sep && forall i :: |a| < i < |s| ==> s[i] == x[i - |a| - 1];
    assert s[|b|] == sep && forall i :: |b| < i < |s| ==> s[i] == y[i - |b| - 1];
    assert |a| == |b|;
    assert a == s[..|a|] && b == s[..|b|];
    assert x == s[|a| + 1..] && y == s[|b| + 1..];
  }

  // ---- the order of strings --------------------------------------------------------------------

  /** a < b in Go: character by character, a prefix coming first. */
  predicate Less(a: string, b: string) {
    |b| > 0 && (|a| == 0 || a[0] < b[0] || (a[0] == b[0] && Less(a[1..], b[1..])))
  }

  lemma {:induction false} LessTrichotomy(a: string, b: string)
    ensures a == b ==> !Less(a, b)
    ensures a != b ==> Less(a, b) != Less(b, a)
  {
    if |a| > 0 && |b| > 0 && a[0] == b[0] {
      LessTrichotomy(a[1..], b[1..]);
      assert a == [a[0]] + a[1..] && b == [b[0]] + b[1..];
    }
  }

  lemma {:induction false} LessTransitive(a: string, b: string, c: string)
    requires Less(a, b) && Less(b, c)
    ensures Less(a, c)
  {
    if |a| > 0 && a[0] == b[0] == c[0] {
      LessTransitive(a[1..], b[1..], c[1..]);
    }
  }

  /** At the first place where two strings differ, the smaller character decides. */
  lemma {:induction false} FirstDifferenceDecides(p: string, c: char, x: string, d: char, y: string)
    requires c != d
    ensures Less(p + [c] + x, p + [d] + y) <==> c < d
  {
    var a, b := p + [c] + x, p + [d] + y;
    if p != "" {
      FirstDifferenceDecides(p[1..], c, x, d, y);
      assert a[1..] == p[1..] + [c] + x && b[1..] == p[1..] + [d] + y;
    }
  }

  /** A string comes before its extensions, and after none of its prefixes. */
  lemma {:induction false} PrefixComesFirst(p: string, x: string)
    ensures Less(p, p + x) <==> x != ""
    ensures !Less(p + x, p)
  {
    if p == "" {
      assert p + x == x;
    } else {
      PrefixComesFirst(p[1..], x);
      assert (p + x)[1..] == p[1..] + x;
    }
  }

  // ---- what written numbers mean ----------------------------------------------------------------

  /** The value of a hexadecimal digit, in ASCII. */
  function DigitMeans(c: char): nat {
    if '0' <= c <= '9' then (c - '0') as nat else if 'a' <= c <= 'f' then 10 + (c - 'a') as nat else 0
  }

  lemma DigitCharMeans(d: nat)
    requires d < 16
    ensures DigitMeans(DigitChar(d)) == d
    ensures if d < 10 then '0' <= DigitChar(d) <= '9' else 'a' <= DigitChar(d) <= 'f'
  {}

  /** Positional notation, the most significant digit first. */
  function NumberMeant(s: string, r: Radix): nat {
    if s == "" then 0 else NumberMeant(s[..|s| - 1], r) * Base(r) + DigitMeans(s[|s| - 1])
  }

  /** A number written in a base means that number in positional notation. */
  lemma {:induction false} DigitsMeanNumber(n: nat, r: Radix)
    ensures NumberMeant(Digits(n, r), r) == n
  {
    var s := Digits(n, r);
    DigitCharMeans(Last(n, r));
    if n < Base(r) {
      DigitCharMeans(n);
      assert s[..|s| - 1] == "";
    } else {
      DigitsMeanNumber(Upper(n, r), r);
      assert s[..|s| - 1] == Digits(Upper(n, r), r) && s[|s| - 1] == DigitChar(Last(n, r));
    }
  }

  /** Without leading zeros. */
  lemma {:induction false} NoLeadingZero(n: nat, r: Radix)
    ensures Digits(n, r)[0] == '0' ==> n == 0
  {
    if n < Base(r) {
      DigitCharMeans(n);
    } else {
      NoLeadingZero(Upper(n, r), r);
      assert Digits(n, r)[0] == Digits(Upper(n, r), r)[0];
    }
  }

  lemma DecimalMeans(n: nat)
    ensures NumberMeant(Decimal(n), Dec) == n && (Decimal(n)[0] == '0' ==> n == 0)
  {
    DigitsMeanNumber(n, Dec);
    NoLeadingZero(n, Dec);
  }

  lemma HexMeans(n: nat)
    ensures NumberMeant(Hex(n), Hexa) == n && |Hex(n)| > 0 && (Hex(n)[0] == '0' ==> n == 0)
  {
    DigitsMeanNumber(n, Hexa);
    NoLeadingZero(n, Hexa);
  }
}
