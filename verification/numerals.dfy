/** Decimal text as Python produces and reads it: `str(n)`, `str.zfill(2)` and `int(s)`
    for strings of ASCII digits. */
module Numerals {

  import opened LexOrder

  predicate IsDigit(c: char)
  {
    '0' <= c <= '9'
  }

  predicate AllDigits(s: string)
  {
    forall i :: 0 <= i < |s| ==> IsDigit(s[i])
  }

  function DigitValue(c: char): (d: nat)
    requires IsDigit(c)
    ensures d < 10
  {
    c as int - '0' as int
  }

  function DigitChar(d: nat): (c: char)
    requires d < 10
    ensures IsDigit(c) && DigitValue(c) == d
  {
    ('0' as int + d) as char
  }

  /** Python's `str(n)` for n >= 0: decimal digits without a leading zero. */
  function ShowNat(n: nat): (r: string)
    ensures |r| >= 1 && AllDigits(r)
    ensures r[0] == '0' ==> n == 0
    decreases n
  {
    if n < 10 then [DigitChar(n)] else ShowNat(n / 10) + [DigitChar(n % 10)]
  }

  /** Python's `str(n)` for any integer. */
  function Show(n: int): string
  {
    if n < 0 then "-" + ShowNat(-n) else ShowNat(n)
  }

  /** Python's `int(s)` on a string of decimal digits. */
  function ParseNat(s: string): nat
    requires AllDigits(s)
    decreases |s|
  {
    if |s| == 0 then 0 else 10 * ParseNat(s[..|s| - 1]) + DigitValue(s[|s| - 1])
  }

  lemma {:induction false} ParseShowNat(n: nat)
    ensures ParseNat(ShowNat(n)) == n
    decreases n
  {
    if n >= 10 {
      var s := ShowNat(n);
      assert s[..|s| - 1] == ShowNat(n / 10);
      ParseShowNat(n / 10);
    }
  }

  lemma ParseTwoDigits(s: string)
    requires |s| == 2 && AllDigits(s)
    ensures ParseNat(s) == 10 * DigitValue(s[0]) + DigitValue(s[1])
  {
    var t := s[..1];
    assert t[..0] == [] && t[0] == s[0];
    assert ParseNat(t) == DigitValue(s[0]);
    assert s[..|s| - 1] == t;
  }

  function Zeros(k: nat): (z: string)
    ensures |z| == k && forall i :: 0 <= i < k ==> z[i] == '0'
  {
    seq(k, _ => '0')
  }

  /** Python's `s.zfill(width)`: left-pads with zeros, keeping a leading sign in front. */
  function ZFill(s: string, width: nat): (r: string)
    ensures |r| == if |s| >= width then |s| else width
  {
    if |s| >= width then s
    else if |s| > 0 && (s[0] == '-' || s[0] == '+') then [s[0]] + Zeros(width - |s|) + s[1..]
    else Zeros(width - |s|) + s
  }

  /** `str(n).zfill(2)`, the way each duration field is rendered. */
  function Pad2(n: int): string
  {
    ZFill(Show(n), 2)
  }

  /** For 0 <= n < 100, Pad2 gives exactly the two decimal digits of n. */
  lemma Pad2Digits(n: int)
    requires 0 <= n < 100
    ensures Pad2(n) == [DigitChar(n / 10), DigitChar(n % 10)]
  {
    if n < 10 {
      assert Show(n) == [DigitChar(n)];
      assert Pad2(n) == Zeros(1) + [DigitChar(n)];
    } else {
      assert ShowNat(n / 10) == [DigitChar(n / 10)];
    }
  }

  /** Reading back a padded field gives the number: `int(str(n).zfill(2)) == n`. */
  lemma ParsePad2(n: int)
    requires 0 <= n < 100
    ensures |Pad2(n)| == 2 && AllDigits(Pad2(n)) && ParseNat(Pad2(n)) == n
  {
    Pad2Digits(n);
    ParseTwoDigits(Pad2(n));
  }

  /** Padding what was read from two digits reproduces them: `str(int(s)).zfill(2) == s`. */
  lemma Pad2Parse(s: string)
    requires |s| == 2 && AllDigits(s)
    ensures Pad2(ParseNat(s)) == s
  {
    ParseTwoDigits(s);
    var n, d0, d1 := ParseNat(s), DigitValue(s[0]), DigitValue(s[1]);
    assert n / 10 == d0 && n % 10 == d1;
    Pad2Digits(n);
    assert DigitChar(d0) == s[0] && DigitChar(d1) == s[1];
    assert s == [s[0], s[1]];
  }

  /** On 0..99, the string order of padded fields is the numeric order. */
  lemma Pad2Order(a: int, b: int)
    requires 0 <= a < 100 && 0 <= b < 100
    ensures StrLess(Pad2(a), Pad2(b)) <==> a < b
    ensures Pad2(a) == Pad2(b) <==> a == b
  {
    Pad2Digits(a);
    Pad2Digits(b);
    ParsePad2(a);
    ParsePad2(b);
    var pa, pb := Pad2(a), Pad2(b);
    assert StrLess(pa[1..], pb[1..]) <==> pa[1] < pb[1] by {
      assert pa[1..][1..] == [] && pb[1..][1..] == [];
      StrLessIrreflexive([]);
    }
    assert StrLess(pa, pb) <==> pa[0] < pb[0] || (pa[0] == pb[0] && pa[1] < pb[1]);
    assert pa[0] < pb[0] <==> a / 10 < b / 10;
    assert pa[1] < pb[1] <==> a % 10 < b % 10;
  }
}
