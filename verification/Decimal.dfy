/**
 Decimal output and input as printf's and scanf's %d perform them on 32-bit
 arguments (sections 7.21.6.1 and 7.21.6.2 of ISO/IEC 9899:2011).
 */
module Decimal {
  import opened Collection

  const TWO_TO_THE_31: int := 0x8000_0000

  predicate IsDigit(c: char) {
    '0' <= c <= '9'
  }

  predicate Digits(s: string) {
    forall i :: 0 <= i < |s| ==> IsDigit(s[i])
  }

  function Digit(d: nat): (c: char)
    requires d < 10
    ensures IsDigit(c) && DigitValue(c) == d
  {
    (d + 48) as char
  }

  function DigitValue(c: char): nat
    requires IsDigit(c)
  {
    c as int - 48
  }

  // ---------- Printing ----------

  function PrintNat(n: nat): (s: string)
    ensures Digits(s) && s != []
    ensures ReadNat(s) == n
  {
    if n < 10 then [Digit(n)] else PrintNat(n / 10) + [Digit(n % 10)]
  }

  function PrintInt(v: int): (s: string)
  {
    if v < 0 then "-" + PrintNat(-v) else PrintNat(v)
  }

  /** An unsigned argument passed where %d expects an int: two's complement. */
  function ToInt32(u: uint32): (v: int)
    ensures -TWO_TO_THE_31 <= v < TWO_TO_THE_31
    ensures ToUint32(v) == u
  {
    if u < TWO_TO_THE_31 then u else u - TWO_TO_THE_32
  }

  function ToUint32(v: int): uint32 {
    v % TWO_TO_THE_32
  }

  /** The text %d prints for an unsigned int. */
  function FormatD(u: uint32): string {
    PrintInt(ToInt32(u))
  }

  // ---------- Reading ----------

  function ReadNat(s: string): nat
    requires Digits(s)
  {
    if s == [] then 0 else 10 * ReadNat(s[..|s| - 1]) + DigitValue(s[|s| - 1])
  }

  /** The length of the longest prefix of s made of digits. */
  function DigitSpan(s: string): (n: nat)
    ensures n <= |s| && Digits(s[..n])
    ensures n < |s| ==> !IsDigit(s[n])
  {
    SpanFrom(s, 0)
  }

  function SpanFrom(s: string, from: nat): (n: nat)
    requires from <= |s|
    ensures from <= n <= |s|
    ensures forall i :: from <= i < n ==> IsDigit(s[i])
    ensures n < |s| ==> !IsDigit(s[n])
    decreases |s| - from
  {
    if from == |s| || !IsDigit(s[from]) then from else SpanFrom(s, from + 1)
  }

  predicate IsSpace(c: char) {
    c == ' ' || 9 <= c as int <= 13
  }

  function SkipSpaces(s: string): string {
    if s != [] && IsSpace(s[0]) then SkipSpaces(s[1..]) else s
  }

  datatype Scan = NoMatch | Match(value: int, rest: string)

  /** One %d conversion: white space, an optional sign, then at least one digit. */
  function ScanD(input: string): Scan {
    var s := SkipSpaces(input);
    if s != [] && (s[0] == '-' || s[0] == '+') then ScanDigits(s[1..], s[0] == '-') else ScanDigits(s, false)
  }

  function ScanDigits(s: string, negative: bool): Scan {
    var n := DigitSpan(s);
    if n == 0 then NoMatch
    else
      var magnitude: int := ReadNat(s[..n]);
      Match(if negative then -magnitude else magnitude, s[n..])
  }

  // ---------- Facts about the printed text ----------

  lemma PrintNatInjective(a: nat, b: nat)
    requires PrintNat(a) == PrintNat(b)
    ensures a == b
  {
    assert ReadNat(PrintNat(a)) == ReadNat(PrintNat(b));
  }

  lemma PrintIntInjective(a: int, b: int)
    requires PrintInt(a) == PrintInt(b)
    ensures a == b
  {
    SignOfPrintInt(a);
    SignOfPrintInt(b);
    if a < 0 {
      assert PrintInt(a)[1..] == PrintNat(-a) && PrintInt(b)[1..] == PrintNat(-b);
      PrintNatInjective(-a, -b);
    } else {
      PrintNatInjective(a, b);
    }
  }

  lemma SignOfPrintInt(v: int)
    ensures PrintInt(v) != []
    ensures PrintInt(v)[0] == '-' <==> v < 0
    ensures Digits(PrintInt(v)[1..])
    ensures v >= 0 ==> Digits(PrintInt(v))
  {
    if v >= 0 {
      assert IsDigit(PrintNat(v)[0]);
    }
  }

  lemma FormatDInjective(a: uint32, b: uint32)
    requires FormatD(a) == FormatD(b)
    ensures a == b
  {
    PrintIntInjective(ToInt32(a), ToInt32(b));
  }

  lemma {:induction false} PrintNatLength(n: nat, k: nat)
    requires k > 0 && n < Pow10(k)
    ensures |PrintNat(n)| <= k
    ensures n >= Pow10(k - 1) ==> |PrintNat(n)| == k
  {
    if n >= 10 {
      PrintNatLength(n / 10, k - 1);
    }
  }

  function Pow10(k: nat): nat {
    if k == 0 then 1 else 10 * Pow10(k - 1)
  }

  /** Ten digits hold every int, an eleventh character the sign. */
  lemma FormatDLength(u: uint32)
    ensures 1 <= |FormatD(u)| <= 11
    ensures u < TWO_TO_THE_31 ==> |FormatD(u)| <= 10
  {
    var v := ToInt32(u);
    TenDigitNumbers();
    PrintNatLength(if v < 0 then -v else v, 10);
  }

  lemma TenDigitNumbers()
    ensures Pow10(9) == 1_000_000_000 && Pow10(10) == 10_000_000_000
  {
    assert Pow10(5) == 100_000;
    assert Pow10(8) == 1000 * Pow10(5);
    assert Pow10(10) == 100 * Pow10(8);
  }

  // ---------- The characters of the printed text ----------

  lemma DigitIs(d: nat)
    requires d < 10
    ensures Digit(d) == "0123456789"[d]
  {
  }

  lemma SmallMultiple(d: int, m: int)
    requires m > 0 && -m < d * m < m
    ensures d == 0
  {
    assert d >= 1 ==> d * m >= m;
    assert d <= -1 ==> d * m <= -m;
  }

  lemma QuotientIs(n: int, m: int, q: int, r: int)
    requires n == q * m + r && 0 <= r < m
    ensures n / m == q
  {
    var d := n / m - q;
    assert n == (n / m) * m + n % m;
    assert d * m == (n / m) * m - q * m;
    SmallMultiple(d, m);
  }

  lemma DivDiv(n: nat, p: nat)
    requires p > 0
    ensures (n / 10) / p == n / (10 * p)
  {
    var q, r := n / 10 / p, (n / 10) % p;
    assert n / 10 == q * p + r;
    assert q * (10 * p) == 10 * (q * p);
    QuotientIs(n, 10 * p, q, 10 * r + n % 10);
  }

  /** The digit at place p of n, the last one being at place 0. */
  function Place(n: nat, p: nat): (d: nat)
    ensures d < 10
  {
    if p == 0 then n % 10 else Place(n / 10, p - 1)
  }

  lemma {:induction false} PlaceIs(n: nat, p: nat)
    ensures Pow10(p) > 0 && Place(n, p) == n / Pow10(p) % 10
  {
    if p > 0 {
      PlaceIs(n / 10, p - 1);
      DivDiv(n, Pow10(p - 1));
    }
  }

  /** A printed number has as many characters as it has decimal places, so no leading zero. */
  lemma {:induction false} PrintNatPlaces(n: nat)
    ensures var k := |PrintNat(n)|; n < Pow10(k) && (n > 0 ==> n >= Pow10(k - 1))
    ensures n > 0 ==> PrintNat(n)[0] != '0'
  {
    if n < 10 {
      DigitIs(n);
      assert Pow10(1) == 10 * Pow10(0);
    } else {
      PrintNatPlaces(n / 10);
      assert PrintNat(n)[0] == PrintNat(n / 10)[0];
    }
  }

  /** Its i-th character is the digit at that decimal place. */
  lemma {:induction false} PrintNatCharacter(n: nat, i: nat)
    requires i < |PrintNat(n)|
    ensures PrintNat(n)[i] == "0123456789"[Place(n, |PrintNat(n)| - 1 - i)]
  {
    if i == |PrintNat(n)| - 1 {
      DigitIs(n % 10);
    } else {
      PrintNatCharacter(n / 10, i);
    }
  }

  /** The decimal text of n: a digit for every place, none of them a leading zero. */
  ghost predicate IsDecimal(text: string, n: nat) {
    && text != [] && n < Pow10(|text|) && (n > 0 ==> text[0] != '0') && (n == 0 ==> |text| == 1)
    && forall i :: 0 <= i < |text| ==> text[i] == "0123456789"[Place(n, |text| - 1 - i)]
  }

  lemma PrintNatIsDecimal(n: nat)
    ensures IsDecimal(PrintNat(n), n)
    ensures n < 10 ==> PrintNat(n) == ["0123456789"[n]]
  {
    PrintNatPlaces(n);
    if n < 10 { DigitIs(n); }
    forall i | 0 <= i < |PrintNat(n)| ensures PrintNat(n)[i] == "0123456789"[Place(n, |PrintNat(n)| - 1 - i)] {
      PrintNatCharacter(n, i);
    }
  }

  /** What %d prints for an unsigned int: ids of 2^31 and above appear negative. */
  lemma FormatDIs(u: uint32)
    ensures if u < TWO_TO_THE_31 then IsDecimal(FormatD(u), u)
            else FormatD(u)[0] == '-' && IsDecimal(FormatD(u)[1..], TWO_TO_THE_32 - u)
    ensures u < 10 ==> FormatD(u) == ["0123456789"[u]]
  {
    PrintNatIsDecimal(if u < TWO_TO_THE_31 then u else TWO_TO_THE_32 - u);
    if u >= TWO_TO_THE_31 { assert FormatD(u)[1..] == PrintNat(TWO_TO_THE_32 - u); }
  }

  // ---------- When one printed number starts another ----------

  /** b is a with zero or more decimal digits appended. */
  predicate Extends(b: nat, a: nat) {
    b == a || (b >= 10 && Extends(b / 10, a))
  }

  predicate ExtendsInt(b: int, a: int) {
    (a < 0 <==> b < 0) && Extends(if b < 0 then -b else b, if a < 0 then -a else a)
  }

  lemma {:induction false} PrintNatPrefix(a: nat, b: nat)
    ensures PrintNat(a) <= PrintNat(b) <==> Extends(b, a)
    decreases b
  {
    var pa, pb := PrintNat(a), PrintNat(b);
    if pa == pb {
      PrintNatInjective(a, b);
    } else if b < 10 {
    } else {
      var shorter := PrintNat(b / 10);
      assert pb == shorter + [Digit(b % 10)];
      if pa <= pb {
        assert pb[..|pa|] == pa && |pa| <= |shorter|;
        assert shorter[..|pa|] == pa;
      }
      PrintNatPrefix(a, b / 10);
    }
  }

  lemma SignedPrefix(s: string, t: string, p: string, q: string)
    requires s == "-" + p && t == "-" + q
    ensures s <= t <==> p <= q
  {
    if s <= t {
      assert forall i :: 0 <= i < |p| ==> p[i] == s[i + 1] && q[i] == t[i + 1];
    }
  }

  lemma PrintNegative(a: int, m: nat)
    requires a < 0 && a + m == 0
    ensures PrintInt(a) == "-" + PrintNat(m)
  {
  }

  lemma NegativePrefix(a: int, b: int, m: nat, n: nat)
    requires a < 0 && b < 0 && a + m == 0 && b + n == 0
    ensures PrintInt(a) <= PrintInt(b) <==> Extends(n, m)
  {
    PrintNegative(a, m);
    PrintNegative(b, n);
    PrintNatPrefix(m, n);
    SignedPrefix(PrintInt(a), PrintInt(b), PrintNat(m), PrintNat(n));
  }

  lemma PrintIntPrefix(a: int, b: int)
    ensures PrintInt(a) <= PrintInt(b) <==> ExtendsInt(b, a)
  {
    if a < 0 && b < 0 {
      NegativePrefix(a, b, -a, -b);
    } else if a >= 0 && b >= 0 {
      PrintNatPrefix(a, b);
    } else {
      SignOfPrintInt(a);
      SignOfPrintInt(b);
      DifferentStart(PrintInt(a), PrintInt(b));
    }
  }

  lemma DifferentStart(s: string, t: string)
    requires s != [] && t != [] && s[0] != t[0]
    ensures !(s <= t)
  {
  }

  // ---------- What %d reads from any text ----------

  lemma DigitSpanOf(d: string, rest: string)
    requires Digits(d) && (rest == [] || !IsDigit(rest[0]))
    ensures DigitSpan(d + rest) == |d|
    ensures (d + rest)[..|d|] == d && (d + rest)[|d|..] == rest
  {
    var n, s := DigitSpan(d + rest), d + rest;
    assert forall i :: 0 <= i < |d| ==> IsDigit(s[i]);
    assert |d| < |s| ==> s[|d|] == rest[0];
    assert forall i :: 0 <= i < n ==> s[..n][i] == s[i];
  }

  lemma ScanDigitsIs(d: string, rest: string, negative: bool)
    requires Digits(d) && (rest == [] || !IsDigit(rest[0]))
    ensures var m: int := ReadNat(d);
            ScanDigits(d + rest, negative) == if d == [] then NoMatch else Match(if negative then -m else m, rest)
  {
    DigitSpanOf(d, rest);
  }

  lemma SpacesAre(c: char)
    ensures IsSpace(c) <==> c in " \t\n\r" || c as int in {11, 12}
  {
  }

  lemma {:induction false} SpacesSkipped(spaces: string, rest: string)
    requires forall i :: 0 <= i < |spaces| ==> IsSpace(spaces[i])
    requires rest == [] || !IsSpace(rest[0])
    ensures SkipSpaces(spaces + rest) == rest
  {
    if spaces == [] {
      assert spaces + rest == rest;
    } else {
      assert (spaces + rest)[1..] == spaces[1..] + rest;
      SpacesSkipped(spaces[1..], rest);
    }
  }

  /** White space, an optional sign of either kind, all the digits there are; without digits nothing is assigned. */
  lemma ScanDIs(spaces: string, sign: string, d: string, rest: string)
    requires forall i :: 0 <= i < |spaces| ==> IsSpace(spaces[i])
    requires sign == "" || sign == "+" || sign == "-"
    requires Digits(d) && (rest == [] || !IsDigit(rest[0]))
    requires sign == "" && d == [] ==> rest == [] || (!IsSpace(rest[0]) && rest[0] !in "+-")
    ensures var m: int := ReadNat(d);
            ScanD(spaces + (sign + (d + rest)))
            == if d == [] then NoMatch else Match(if sign == "-" then -m else m, rest)
  {
    var t := d + rest;
    assert d != [] ==> t[0] == d[0] && IsDigit(d[0]);
    assert sign != "" ==> (sign + t)[0] == sign[0] && (sign + t)[1..] == t;
    assert sign == "" ==> sign + t == t;
    SpacesSkipped(spaces, sign + t);
    ScanDigitsIs(d, rest, sign == "-");
  }

  /** Leading zeros do not matter. */
  lemma {:induction false} LeadingZero(d: string)
    requires Digits(d)
    ensures ReadNat("0" + d) == ReadNat(d)
  {
    if d != [] {
      var n := |d| - 1;
      LeadingZero(d[..n]);
      assert ("0" + d)[..n + 1] == "0" + d[..n];
    }
  }

  // ---------- Reading back what was printed, whole or cut short ----------

  /** What %d reads from an optional minus sign, a run of digits and something else. */
  lemma ScanSignedDigits(negative: bool, d: string, rest: string)
    requires Digits(d) && (rest == [] || !IsDigit(rest[0]))
    requires d == [] ==> rest == []
    ensures var m: int := ReadNat(d);
            ScanD((if negative then "-" else "") + (d + rest))
            == if d == [] then NoMatch else Match(if negative then -m else m, rest)
  {
    var s := (if negative then "-" else "") + (d + rest);
    ScanDIs("", if negative then "-" else "", d, rest);
    assert "" + s == s;
  }

  lemma PrintedText(v: int, n: nat, rest: string)
    requires n == if v < 0 then -v else v
    ensures PrintInt(v) + rest == (if v < 0 then "-" else "") + (PrintNat(n) + rest)
  {
  }

  lemma ScanPrinted(v: int, rest: string)
    requires rest == [] || !IsDigit(rest[0])
    ensures ScanD(PrintInt(v) + rest) == Match(v, rest)
  {
    var n: nat := if v < 0 then -v else v;
    ScanSignedDigits(v < 0, PrintNat(n), rest);
    PrintedText(v, n, rest);
  }

  lemma {:induction false} CutNatIsSmaller(n: nat, k: nat)
    requires 0 < k < |PrintNat(n)|
    ensures Digits(PrintNat(n)[..k]) && ReadNat(PrintNat(n)[..k]) < n
    decreases n
  {
    var shorter := PrintNat(n / 10);
    assert PrintNat(n)[..k] == shorter[..k];
    if k == |shorter| {
      assert shorter[..k] == shorter;
    } else {
      CutNatIsSmaller(n / 10, k);
    }
  }

  /** What is left of a printed number cut short: perhaps the sign, and m digits. */
  lemma CutText(v: int, k: nat, p: string, m: nat)
    requires k < |PrintInt(v)| && p == PrintNat(if v < 0 then -v else v)
    requires m == if v < 0 && k > 0 then k - 1 else k
    ensures m < |p| && PrintInt(v)[..k] == (if v < 0 && k > 0 then "-" else "") + (p[..m] + [])
  {
  }

  /** A printed number cut short never reads back as the number printed. */
  lemma ScanCut(v: int, k: nat)
    requires k < |PrintInt(v)|
    ensures var cut := ScanD(PrintInt(v)[..k]);
            cut.Match? ==> cut.rest == [] && (if v < 0 then v < cut.value <= 0 else 0 <= cut.value < v)
  {
    var n: nat := if v < 0 then -v else v;
    var m := if v < 0 && k > 0 then k - 1 else k;
    CutText(v, k, PrintNat(n), m);
    ScanSignedDigits(v < 0 && k > 0, PrintNat(n)[..m], []);
    if m > 0 {
      CutNatIsSmaller(n, m);
    }
  }
}
