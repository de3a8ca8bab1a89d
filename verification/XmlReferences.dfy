/** Every character is read from its numeric references (XML 1.0, section 4.1), in text and in values. */
module XmlReferences {
  import opened Basics
  import opened Strings
  import opened XmlModel
  import opened XmlDecoder

  function DigitOf(d: nat, upper: bool): (c: char)
    requires d < 16
  {
    if d < 10 then ('0' as nat + d) as char
    else if upper then ('A' as nat + d - 10) as char
    else ('a' as nat + d - 10) as char
  }

  function Base(hex: bool): (b: nat)
    ensures b >= 10
  {
    if hex then 16 else 10
  }

  /** A number written with decimal or hexadecimal digits, the latter in either case. */
  function Numeral(n: nat, hex: bool, upper: bool): (s: string)
  {
    var last := [DigitOf(n % Base(hex), upper)];
    if n < Base(hex) then last else Numeral(n / Base(hex), hex, upper) + last
  }

  predicate IsDigitOf(c: char, hex: bool) {
    if hex then IsHexDigit(c) else IsDigit(c)
  }

  lemma DigitValue(d: nat, hex: bool, upper: bool)
    requires d < Base(hex)
    ensures var c := DigitOf(d, upper); IsDigitOf(c, hex) && IsHexDigit(c) && HexValue(c) == d
  {
  }

  ghost predicate AllDigitsOf(s: string, hex: bool) {
    forall i :: 0 <= i < |s| ==> IsDigitOf(s[i], hex)
  }

  lemma {:induction false} DigitsConcat(a: string, b: string, hex: bool, n: nat)
    requires AllDigitsOf(a, hex)
    ensures Digits(a, hex, n).1 == |a|
    ensures Digits(a + b, hex, n).0 == Digits(b, hex, Digits(a, hex, n).0).0
    ensures Digits(a + b, hex, n).1 == |a| + Digits(b, hex, Digits(a, hex, n).0).1
  {
    if a == "" {
      assert a + b == b;
    } else {
      assert (a + b)[0] == a[0] && (a + b)[1..] == a[1..] + b;
      DigitsConcat(a[1..], b, hex, n * Base(hex) + HexValue(a[0]));
    }
  }

  lemma DigitStep(d: nat, hex: bool, upper: bool, n: nat, r: string)
    requires d < Base(hex) && (r != "" ==> !IsDigitOf(r[0], hex))
    ensures Digits([DigitOf(d, upper)] + r, hex, n) == (n * Base(hex) + d, 1)
  {
    var c := DigitOf(d, upper);
    DigitValue(d, hex, upper);
    assert ([c] + r)[1..] == r;
  }

  lemma {:induction false} DigitsOfNumeral(n: nat, hex: bool, upper: bool, r: string)
    requires r != "" ==> !IsDigitOf(r[0], hex)
    ensures AllDigitsOf(Numeral(n, hex, upper), hex) && Numeral(n, hex, upper) != ""
    ensures Digits(Numeral(n, hex, upper) + r, hex, 0) == (n, |Numeral(n, hex, upper)|)
  {
    var b := Base(hex);
    var d := n % b;
    DigitValue(d, hex, upper);
    if n < b {
      DigitStep(d, hex, upper, 0, r);
    } else {
      var front := Numeral(n / b, hex, upper);
      DigitsOfNumeral(n / b, hex, upper, "");
      assert front + "" == front;
      DigitsConcat(front, [DigitOf(d, upper)] + r, hex, 0);
      DigitStep(d, hex, upper, n / b, r);
      Assoc(front, [DigitOf(d, upper)], r);
      assert n / b * b + d == n;
    }
  }

  function NumericReference(c: char, hex: bool, upper: bool): (s: string) {
    (if hex then "&#x" else "&#") + Numeral(c as nat, hex, upper) + ";"
  }

  lemma CharOfItself(c: char)
    ensures CharOf(c as nat) == Some(c)
  {
  }

  lemma ReferenceParts(open: string, num: string, r: string)
    ensures var s := open + num + ";" + r;
            && s == open + (num + (";" + r)) && s[|open|..] == num + (";" + r)
            && s[|open| + |num|] == ';' && |s| == |open| + |num| + 1 + |r|
  {
    Assoc4(open, num, ";", r);
    Assoc(num, ";", r);
  }

  lemma NumericStep(s: string, hex: bool, start: nat, n: nat, k: nat, c: char)
    requires "&#" <= s && ("&#x" <= s <==> hex) && start == (if hex then 3 else 2) && 0 < k < |s| - start
    requires Digits(s[start..], hex, 0) == (n, k) && s[start + k] == ';' && CharOf(n) == Some(c) && XmlChar(c)
    ensures Numeric(s) == Some((c, start + k + 1))
  {
  }

  lemma NumericOf(c: char, hex: bool, upper: bool, s: string, r: string)
    requires XmlChar(c) && s == NumericReference(c, hex, upper) + r
    ensures Numeric(s) == Some((c, |NumericReference(c, hex, upper)|))
  {
    var num := Numeral(c as nat, hex, upper);
    var open := if hex then "&#x" else "&#";
    DigitsOfNumeral(c as nat, hex, upper, ";" + r);
    ReferenceParts(open, num, r);
    CharOfItself(c);
    NotHex(s, num + (";" + r), hex);
    NumericStep(s, hex, |open|, c as nat, |num|, c);
  }

  /** The form is recognised by its third character. */
  lemma NotHex(s: string, tail: string, hex: bool)
    requires s == (if hex then "&#x" else "&#") + tail && tail != "" && tail[0] != 'x'
    ensures "&#" <= s && ("&#x" <= s <==> hex)
  {
    assert s[2] == if hex then 'x' else tail[0];
    assert hex ==> s[..3] == "&#x";
  }

  lemma NotNamed(s: string)
    requires "&#" <= s
    ensures Reference(s) == Numeric(s)
  {
    assert s[1] == '#';
  }

  /** Wherever text is scanned, the decimal and both hexadecimal references of a character stand for it. */
  lemma NumericIsRead(c: char, hex: bool, upper: bool, r: string, quote: Option<char>)
    requires XmlChar(c) && quote != Some('&')
    ensures ScanText(NumericReference(c, hex, upper) + r, quote) == Prepend(c, ScanText(r, quote))
  {
    var ref := NumericReference(c, hex, upper);
    var s := ref + r;
    NumericOf(c, hex, upper, s, r);
    NotNamed(s);
    assert s[0] == '&' && s[|ref|..] == r;
  }
}
