/** The text operations the loader applies: Python's `str(int)` (used for the
    year labels and the shape and range messages), Python's ordering of
    strings, and the case-fold key used to sort country names. */
module Text {

  predicate IsDigit(c: char) { '0' <= c <= '9' }

  function DigitChar(d: nat): (c: char)
    requires d < 10
    ensures IsDigit(c) && c as int - '0' as int == d
  {
    ('0' as int + d) as char
  }

  /** Decimal digits of a natural number, without leading zeros. */
  function NatToDecimal(n: nat): (s: string)
    ensures |s| >= 1 && forall i :: 0 <= i < |s| ==> IsDigit(s[i])
    ensures (|s| > 1) == (n >= 10)
    ensures s[0] == '0' <==> n == 0
    decreases n
  {
    if n < 10 then [DigitChar(n)] else NatToDecimal(n / 10) + [DigitChar(n % 10)]
  }

  /** Python's `str(i)` for an integer: a minus sign, then the decimal digits. */
  function Decimal(i: int): (s: string)
    ensures IsDecimalText(s)
    ensures s[0] == '-' <==> i < 0
  {
    if i < 0 then "-" + NatToDecimal(-i) else NatToDecimal(i)
  }

  ghost predicate AllDigits(s: string) {
    forall i :: 0 <= i < |s| ==> IsDigit(s[i])
  }

  /** Value of a string of decimal digits. */
  function ParseNat(s: string): nat
    requires AllDigits(s)
  {
    if s == [] then 0 else ParseNat(s[..|s| - 1]) * 10 + (s[|s| - 1] as int - '0' as int)
  }

  /** At least one digit, and no leading zero unless the number is 0. */
  ghost predicate IsNatText(d: string) {
    d != [] && AllDigits(d) && (d[0] == '0' ==> |d| == 1)
  }

  /** The strings `str` gives for integers: digits as above, after a minus
      sign when the number is negative (so never "-0"). */
  ghost predicate IsDecimalText(s: string) {
    s != [] && if s[0] == '-' then IsNatText(s[1..]) && s[1..] != "0" else IsNatText(s)
  }

  /** Python's `int(s)` on the strings of the form `Decimal` produces. */
  function ParseDecimal(s: string): int
    requires IsDecimalText(s)
  {
    if s[0] == '-' then -(ParseNat(s[1..]) as int) else ParseNat(s)
  }

  lemma {:induction false} ParseNatToDecimal(n: nat)
    ensures ParseNat(NatToDecimal(n)) == n
  {
    if n >= 10 {
      var s := NatToDecimal(n);
      assert s[..|s| - 1] == NatToDecimal(n / 10);
      ParseNatToDecimal(n / 10);
    }
  }

  lemma {:induction false} ParseNatPositive(d: string)
    requires d != [] && AllDigits(d) && d[0] != '0'
    ensures ParseNat(d) > 0
    decreases |d|
  {
    if |d| > 1 {
      ParseNatPositive(d[..|d| - 1]);
    }
  }

  /** Digits without a leading zero are exactly what `NatToDecimal` writes. */
  lemma {:induction false} NatTextRoundTrip(d: string)
    requires IsNatText(d)
    ensures NatToDecimal(ParseNat(d)) == d
    decreases |d|
  {
    if |d| > 1 {
      var p := d[..|d| - 1];
      ParseNatPositive(p);
      NatTextRoundTrip(p);
      var n := ParseNat(d);
      assert n / 10 == ParseNat(p) && n % 10 == d[|d| - 1] as int - '0' as int;
      assert d == p + [d[|d| - 1]];
    }
  }

  /** Every string of the form `str` produces is `str` of the integer it
      denotes: `str(int(s)) == s`. */
  lemma DecimalCanonical(s: string)
    requires IsDecimalText(s)
    ensures Decimal(ParseDecimal(s)) == s
  {
    if s[0] == '-' {
      NatTextRoundTrip(s[1..]);
      assert ParseNat(s[1..]) != 0 by {
        ParseNatPositive(s[1..]);
      }
      assert s == "-" + s[1..];
    } else {
      NatTextRoundTrip(s);
    }
  }

  /** `str` on integers is inverted by `int`. */
  lemma DecimalRoundTrip(i: int)
    ensures IsDecimalText(Decimal(i))
    ensures ParseDecimal(Decimal(i)) == i
  {
    var s := Decimal(i);
    if i < 0 {
      assert s[1..] == NatToDecimal(-i);
      ParseNatToDecimal(-i);
    } else {
      ParseNatToDecimal(i);
    }
  }

  /** Distinct integers have distinct labels. */
  lemma DecimalInjective(a: int, b: int)
    ensures Decimal(a) == Decimal(b) <==> a == b
  {
    if Decimal(a) == Decimal(b) {
      DecimalRoundTrip(a);
      DecimalRoundTrip(b);
    }
  }

  /** Python's `<=` on strings: lexicographic by code point, a proper prefix first. */
  predicate LexLe(a: string, b: string): (r: bool)
    ensures a <= b ==> r
    ensures r && a != [] ==> b != [] && a[0] <= b[0]
    decreases |a|
  {
    a == [] || (b != [] && (a[0] < b[0] || (a[0] == b[0] && LexLe(a[1..], b[1..]))))
  }

  /** `a` and `b` agree up to some position where `a` has the smaller
      character. */
  ghost predicate FirstDifferenceLess(a: string, b: string) {
    exists k :: 0 <= k < |a| && k < |b| && a[..k] == b[..k] && a[k] < b[k]
  }

  /** The string order is the textbook one: `a` is a prefix of `b`, or at
      the first position where they differ `a` has the smaller code point. */
  lemma {:induction false} LexLeFirstDifference(a: string, b: string)
    ensures LexLe(a, b) <==> a <= b || FirstDifferenceLess(a, b)
    decreases |a|
  {
    if a != [] && b != [] && a[0] == b[0] {
      LexLeFirstDifference(a[1..], b[1..]);
      assert a <= b <==> a[1..] <= b[1..] by {
        assert a == [a[0]] + a[1..] && b == [b[0]] + b[1..];
      }
      if FirstDifferenceLess(a[1..], b[1..]) {
        var k :| 0 <= k < |a[1..]| && k < |b[1..]| && a[1..][..k] == b[1..][..k] && a[1..][k] < b[1..][k];
        assert a[..k + 1] == [a[0]] + a[1..][..k] && b[..k + 1] == [b[0]] + b[1..][..k];
      }
      if FirstDifferenceLess(a, b) {
        var k :| 0 <= k < |a| && k < |b| && a[..k] == b[..k] && a[k] < b[k];
        assert k > 0;
        assert a[1..][..k - 1] == a[..k][1..] && b[1..][..k - 1] == b[..k][1..];
      }
    } else if a != [] && b != [] && a[0] < b[0] {
      assert a[..0] == b[..0];
    }
  }

  lemma {:induction false} LexLeTotal(a: string, b: string)
    ensures LexLe(a, b) || LexLe(b, a)
    decreases |a|
  {
    if a != [] && b != [] && a[0] == b[0] {
      LexLeTotal(a[1..], b[1..]);
    }
  }

  lemma {:induction false} LexLeTransitive(a: string, b: string, c: string)
    requires LexLe(a, b) && LexLe(b, c)
    ensures LexLe(a, c)
    decreases |a|
  {
    if a != [] && a[0] == b[0] && b[0] == c[0] {
      LexLeTransitive(a[1..], b[1..], c[1..]);
    }
  }

  /** Lower-case form of a character in the ASCII range; others are kept. */
  function FoldChar(c: char): (f: char)
    ensures 'A' <= c <= 'Z' ==> f as int == c as int + 32
    ensures !('A' <= c <= 'Z') ==> f == c
  {
    if 'A' <= c <= 'Z' then (c as int + 32) as char else c
  }

  /** The case-fold key `str.casefold()`, on the ASCII letters. */
  function Casefold(s: string): (r: string)
    ensures |r| == |s|
    ensures forall i :: 0 <= i < |s| ==> r[i] == FoldChar(s[i])
    ensures forall i :: 0 <= i < |r| ==> !('A' <= r[i] <= 'Z')
  {
    seq(|s|, i requires 0 <= i < |s| => FoldChar(s[i]))
  }

  /** The order `sorted(..., key=casefold)` puts names in. */
  predicate CasefoldLe(a: string, b: string) {
    LexLe(Casefold(a), Casefold(b))
  }

  lemma CasefoldLeTotalPreorder()
    ensures forall a, b :: CasefoldLe(a, b) || CasefoldLe(b, a)
    ensures forall a, b, c :: CasefoldLe(a, b) && CasefoldLe(b, c) ==> CasefoldLe(a, c)
  {
    forall a, b ensures CasefoldLe(a, b) || CasefoldLe(b, a) {
      LexLeTotal(Casefold(a), Casefold(b));
    }
    forall a, b, c | CasefoldLe(a, b) && CasefoldLe(b, c) ensures CasefoldLe(a, c) {
      LexLeTransitive(Casefold(a), Casefold(b), Casefold(c));
    }
  }

  /** `x` and `y` are the upper- and lower-case forms of one ASCII letter. */
  predicate OtherCase(x: char, y: char) {
    || ('A' <= x <= 'Z' && y as int == x as int + 32)
    || ('A' <= y <= 'Z' && x as int == y as int + 32)
  }

  /** Names that differ only in ASCII letter case share a key. */
  lemma CasefoldIgnoresCase(a: string, b: string)
    requires |a| == |b| && forall i :: 0 <= i < |a| ==> a[i] == b[i] || OtherCase(a[i], b[i])
    ensures CasefoldLe(a, b) && CasefoldLe(b, a)
  {
    forall i | 0 <= i < |a| ensures FoldChar(a[i]) == FoldChar(b[i]) {
      if a[i] != b[i] {
        assert OtherCase(a[i], b[i]);
      }
    }
    assert Casefold(a) == Casefold(b);
    LexLeReflexive(Casefold(a));
  }

  lemma {:induction false} LexLeReflexive(a: string)
    ensures LexLe(a, a)
    decreases |a|
  {
    if a != [] {
      LexLeReflexive(a[1..]);
    }
  }
}
