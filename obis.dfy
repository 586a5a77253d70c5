/**
 * src/obis_code.rs: an OBIS code is six octets A-B:C.D.E*F naming a COSEM object.
 */
module Obis {
  import opened Bytes
  import AxdrData

  datatype ObisCode = ObisCode(a: byte, b: byte, c: byte, d: byte, e: byte, f: byte)

  /** The six octets A to F, with no type tag. */
  function Encode(code: ObisCode): (s: seq<byte>)
    ensures |s| == 6
  {
    [code.a, code.b, code.c, code.d, code.e, code.f]
  }

  /** Six octets, whatever they are; anything after them is the rest. */
  function Parse(input: seq<byte>): (r: Option<(ObisCode, seq<byte>)>)
    ensures r.Some? <==> |input| >= 6
    ensures r.Some? ==> r.value.1 == input[6..]
  {
    if |input| < 6 then None
    else Some((ObisCode(input[0], input[1], input[2], input[3], input[4], input[5]), input[6..]))
  }

  lemma {:induction false} ParseEncode(code: ObisCode, rest: seq<byte>)
    ensures Parse(Encode(code) + rest) == Some((code, rest))
  {
    assert (Encode(code) + rest)[6..] == rest;
  }

  /** Parsing loses nothing: the code read, written back, is the six octets it came from. */
  lemma {:induction false} EncodeParse(input: seq<byte>)
    requires |input| >= 6
    ensures Encode(Parse(input).value.0) + Parse(input).value.1 == input
  {
    assert input == input[..6] + input[6..];
  }

  /** The A-XDR octet-string form: tag 0x09, length 6, then the code. */
  function EncodeWithType(code: ObisCode): (s: seq<byte>)
    ensures |s| == 8 && s[..2] == [0x09, 0x06] && s[2..] == Encode(code)
  {
    [0x09, 0x06, code.a, code.b, code.c, code.d, code.e, code.f]
  }

  /** It is the A-XDR encoding of the octet string holding the code, so Data::parse reads it. */
  lemma {:induction false} EncodeWithTypeIsOctetString(code: ObisCode, rest: seq<byte>)
    ensures EncodeWithType(code) == AxdrData.Encoding(AxdrData.OctetString(Encode(code)))
    ensures AxdrData.Parse(EncodeWithType(code) + rest) == Some((AxdrData.OctetString(Encode(code)), rest))
  {
    AxdrData.ParseEncoding(AxdrData.OctetString(Encode(code)), rest);
  }

  // ---------------------------------------------------------------------------
  // Ordering: the derived `Ord`, field by field from A to F
  // ---------------------------------------------------------------------------

  predicate Less(x: ObisCode, y: ObisCode) {
    LexLess(Encode(x), Encode(y))
  }

  /** Lexicographic order on octet sequences of the same length. */
  predicate LexLess(u: seq<byte>, v: seq<byte>)
    requires |u| == |v|
    decreases |u|
  {
    |u| > 0 && (u[0] < v[0] || (u[0] == v[0] && LexLess(u[1..], v[1..])))
  }

  lemma {:induction false} LexIrreflexive(u: seq<byte>)
    ensures !LexLess(u, u)
    decreases |u|
  {
    if |u| > 0 {
      LexIrreflexive(u[1..]);
    }
  }

  lemma {:induction false} LexTransitive(u: seq<byte>, v: seq<byte>, w: seq<byte>)
    requires |u| == |v| == |w| && LexLess(u, v) && LexLess(v, w)
    ensures LexLess(u, w)
    decreases |u|
  {
    if u[0] == v[0] && v[0] == w[0] {
      LexTransitive(u[1..], v[1..], w[1..]);
    }
  }

  lemma {:induction false} LexTotal(u: seq<byte>, v: seq<byte>)
    requires |u| == |v| && u != v
    ensures LexLess(u, v) || LexLess(v, u)
    decreases |u|
  {
    assert |u| > 0;
    if u[0] == v[0] {
      assert u == [u[0]] + u[1..] && v == [v[0]] + v[1..];
      assert u[1..] != v[1..];
      LexTotal(u[1..], v[1..]);
    }
  }

  /** The order is a strict total order on codes. */
  lemma {:induction false} LessIsStrictTotalOrder(x: ObisCode, y: ObisCode, z: ObisCode)
    ensures !Less(x, x)
    ensures Less(x, y) && Less(y, z) ==> Less(x, z)
    ensures x != y ==> Less(x, y) || Less(y, x)
  {
    LexIrreflexive(Encode(x));
    if Less(x, y) && Less(y, z) {
      LexTransitive(Encode(x), Encode(y), Encode(z));
    }
    if x != y {
      assert Encode(x) != Encode(y) by {
        if Encode(x) == Encode(y) {
          ParseEncode(x, []);
          ParseEncode(y, []);
        }
      }
      LexTotal(Encode(x), Encode(y));
    }
  }

  /** A code that differs first in field E is ordered by E (the library's own example). */
  lemma {:induction false} LessByE(x: ObisCode, y: ObisCode)
    requires x.a == y.a && x.b == y.b && x.c == y.c && x.d == y.d && x.e < y.e
    ensures Less(x, y)
  {
    var u := Encode(x);
    var v := Encode(y);
    assert LexLess(u[4..], v[4..]);
    LexStep(u[3..], v[3..]);
    LexStep(u[2..], v[2..]);
    LexStep(u[1..], v[1..]);
    LexStep(u, v);
  }

  lemma LexStep(u: seq<byte>, v: seq<byte>)
    requires |u| == |v| > 0 && u[0] == v[0] && LexLess(u[1..], v[1..])
    ensures LexLess(u, v)
  {
  }

  // ---------------------------------------------------------------------------
  // Display: decimal fields as "A-B:C.D.E*F"
  // ---------------------------------------------------------------------------

  predicate IsDigit(ch: char) { '0' <= ch <= '9' }

  /** The decimal numeral of n, as `{}` formats an integer. */
  function Decimal(n: nat): (s: string)
    ensures |s| > 0 && forall i :: 0 <= i < |s| ==> IsDigit(s[i])
    decreases n
  {
    if n < 10 then [DigitChar(n)] else Decimal(n / 10) + [DigitChar(n % 10)]
  }

  function DigitChar(k: nat): (ch: char)
    requires k < 10
    ensures IsDigit(ch)
  {
    ('0' as int + k) as char
  }

  /** The number a string of digits denotes. */
  function DigitsValue(s: string): nat
    requires forall i :: 0 <= i < |s| ==> IsDigit(s[i])
  {
    if |s| == 0 then 0
    else
      assert IsDigit(s[|s| - 1]);
      DigitsValue(s[..|s| - 1]) * 10 + (s[|s| - 1] as int - '0' as int)
  }

  lemma {:induction false} DecimalValue(n: nat)
    ensures DigitsValue(Decimal(n)) == n
    decreases n
  {
    if n >= 10 {
      var s := Decimal(n);
      assert s[..|s| - 1] == Decimal(n / 10);
      DecimalValue(n / 10);
    }
  }

  function Display(code: ObisCode): string {
    Decimal(code.a) + "-" + Decimal(code.b) + ":" + Decimal(code.c) + "." + Decimal(code.d) + "."
    + Decimal(code.e) + "*" + Decimal(code.f)
  }

  /** The length of the run of digits at the front of s. */
  function DigitRun(s: string): (n: nat)
    ensures n <= |s| && forall i :: 0 <= i < n ==> IsDigit(s[i])
    ensures n < |s| ==> !IsDigit(s[n])
  {
    if |s| == 0 || !IsDigit(s[0]) then 0 else 1 + DigitRun(s[1..])
  }

  /** Reads a number and the separator after it. */
  function ReadField(s: string, sep: char): Option<(nat, string)> {
    var n := DigitRun(s);
    if n == 0 || n >= |s| || s[n] != sep then None
    else Some((DigitsValue(s[..n]), s[n + 1..]))
  }

  /** Reads "A-B:C.D.E*F" back, the inverse of Display. */
  function ReadDisplay(s: string): Option<ObisCode> {
    match ReadField(s, '-')
    case None => None
    case Some((a, s1)) =>
      match ReadField(s1, ':')
      case None => None
      case Some((b, s2)) =>
        match ReadField(s2, '.')
        case None => None
        case Some((c, s3)) =>
          match ReadField(s3, '.')
          case None => None
          case Some((d, s4)) =>
            match ReadField(s4, '*')
            case None => None
            case Some((e, s5)) =>
              var n := DigitRun(s5);
              if n == 0 || n != |s5| then None
              else
                var f := DigitsValue(s5);
                if a < 256 && b < 256 && c < 256 && d < 256 && e < 256 && f < 256
                then Some(ObisCode(a, b, c, d, e, f)) else None
  }

  lemma {:induction false} DigitRunOf(s: string, rest: string)
    requires forall i :: 0 <= i < |s| ==> IsDigit(s[i])
    requires |rest| == 0 || !IsDigit(rest[0])
    ensures DigitRun(s + rest) == |s|
    decreases |s|
  {
    if |s| > 0 {
      assert (s + rest)[1..] == s[1..] + rest;
      DigitRunOf(s[1..], rest);
    } else {
      assert s + rest == rest;
    }
  }

  lemma {:induction false} ReadFieldOf(n: nat, sep: char, rest: string)
    requires !IsDigit(sep)
    ensures ReadField(Decimal(n) + [sep] + rest, sep) == Some((n, rest))
  {
    var s := Decimal(n) + [sep] + rest;
    DigitRunOf(Decimal(n), [sep] + rest);
    assert s == Decimal(n) + ([sep] + rest);
    assert s[..|Decimal(n)|] == Decimal(n);
    assert s[|Decimal(n)| + 1..] == rest;
    DecimalValue(n);
  }

  /** Display loses nothing: the string reads back as the code, so different codes display differently. */
  lemma {:induction false} DisplayReadsBack(code: ObisCode)
    ensures ReadDisplay(Display(code)) == Some(code)
  {
    var s5 := Decimal(code.f);
    var s4 := Decimal(code.e) + "*" + s5;
    var s3 := Decimal(code.d) + "." + s4;
    var s2 := Decimal(code.c) + "." + s3;
    var s1 := Decimal(code.b) + ":" + s2;
    assert Display(code) == Decimal(code.a) + "-" + s1;
    ReadFieldOf(code.a, '-', s1);
    ReadFieldOf(code.b, ':', s2);
    ReadFieldOf(code.c, '.', s3);
    ReadFieldOf(code.d, '.', s4);
    ReadFieldOf(code.e, '*', s5);
    LastFieldOf(code.f);
    ReadDisplayOf(Display(code), code, s1, s2, s3, s4, s5);
  }

  lemma LastFieldOf(n: nat)
    ensures DigitRun(Decimal(n)) == |Decimal(n)| && DigitsValue(Decimal(n)) == n
  {
    DigitRunOf(Decimal(n), "");
    assert Decimal(n) + "" == Decimal(n);
    DecimalValue(n);
  }

  /** ReadDisplay, one field at a time. */
  lemma ReadDisplayOf(s: string, code: ObisCode, s1: string, s2: string, s3: string, s4: string, s5: string)
    requires ReadField(s, '-') == Some((code.a as nat, s1))
    requires ReadField(s1, ':') == Some((code.b as nat, s2))
    requires ReadField(s2, '.') == Some((code.c as nat, s3))
    requires ReadField(s3, '.') == Some((code.d as nat, s4))
    requires ReadField(s4, '*') == Some((code.e as nat, s5))
    requires DigitRun(s5) == |s5| > 0 && DigitsValue(s5) == code.f
    ensures ReadDisplay(s) == Some(code)
  {
  }

  lemma DisplayInjective(x: ObisCode, y: ObisCode)
    requires Display(x) == Display(y)
    ensures x == y
  {
    DisplayReadsBack(x);
    DisplayReadsBack(y);
  }

  /** The library's example: 1-0:1.8.0*255, active energy import. */
  lemma DisplayExample()
    ensures Display(ObisCode(1, 0, 1, 8, 0, 255)) == "1-0:1.8.0*255"
  {
    assert Decimal(255) == "255" by {
      assert Decimal(25) == "25" by { assert Decimal(2) == "2"; }
    }
  }
}
