/** The two number parsers the row extractor calls: `Integer.parseInt` for quantities and
    `Double.parseDouble` for prices. Quantities keep Java's 32-bit range; prices are exact
    decimals (`real`), see the README for the forms of `parseDouble` that are not modelled. */
module Numbers {
  import opened Wrappers
  import Text
  import Seqs

  /** A `NumberFormatException`, carrying the string the parser was given. */
  datatype NumberFormatError = NumberFormat(input: string)

  const IntMin: int := -0x8000_0000
  const IntMax: int := 0x7fff_ffff

  predicate IsDigit(c: char) {
    '0' <= c <= '9'
  }

  predicate AllDigits(s: string) {
    forall k :: 0 <= k < |s| ==> IsDigit(s[k])
  }

  function Pow10(n: nat): (p: nat)
    ensures p >= 1
  {
    if n == 0 then 1 else 10 * Pow10(n - 1)
  }

  /** The value of a string of decimal digits, most significant first. */
  function DigitsValue(s: string): (n: nat)
    requires AllDigits(s)
    ensures n < Pow10(|s|)
  {
    if s == [] then 0
    else DigitsValue(s[..|s| - 1]) * 10 + (s[|s| - 1] as int - '0' as int)
  }

  /** `Integer.parseInt(s)`: an optional sign, then one or more decimal digits, the value lying
      in the 32-bit range; anything else is a NumberFormatException. */
  function ParseInt(s: string): (r: Result<int, NumberFormatError>)
    ensures r.Ok? ==> IntMin <= r.value <= IntMax
    ensures r.Err? ==> r.error == NumberFormat(s)
    ensures r.Ok? ==> s != [] && (IsDigit(s[0]) || s[0] == '-' || s[0] == '+') && AllDigits(s[1..])
  {
    if s == [] then Err(NumberFormat(s))
    else
      var negative := s[0] == '-';
      var digits := if s[0] == '-' || s[0] == '+' then s[1..] else s;
      if digits == [] || !AllDigits(digits) then Err(NumberFormat(s))
      else
        var v := if negative then -(DigitsValue(digits) as int) else DigitsValue(digits) as int;
        if v < IntMin || IntMax < v then Err(NumberFormat(s)) else Ok(v)
  }

  /** The decimal text of a natural number, without leading zeros (`Integer.toString`). */
  function NatToString(n: nat): (s: string)
    ensures s != [] && AllDigits(s)
  {
    if n < 10 then [('0' as int + n) as char]
    else NatToString(n / 10) + [('0' as int + n % 10) as char]
  }

  /** The decimal text of an integer, with a minus sign when negative. */
  function IntToString(n: int): (s: string)
    ensures s != []
  {
    if n < 0 then "-" + NatToString(-n) else NatToString(n)
  }

  lemma {:induction false} NatToStringValue(n: nat)
    ensures DigitsValue(NatToString(n)) == n
  {
    if n >= 10 {
      var s := NatToString(n);
      assert s[..|s| - 1] == NatToString(n / 10);
      NatToStringValue(n / 10);
    }
  }

  /** Round trip: every 32-bit integer printed in decimal parses back to itself. */
  lemma ParseIntRoundTrip(n: int)
    requires IntMin <= n <= IntMax
    ensures ParseInt(IntToString(n)) == Ok(n)
  {
    var s := IntToString(n);
    if n < 0 {
      var d := NatToString(-n);
      NatToStringValue(-n);
      assert s[0] == '-' && s[1..] == d;
      assert ParseInt(s) == Ok(-(DigitsValue(d) as int));
    } else {
      var d := NatToString(n);
      NatToStringValue(n);
      assert s == d && IsDigit(s[0]);
      assert ParseInt(s) == Ok(DigitsValue(d) as int);
    }
  }

  /** A quantity written with a thousands separator does not parse: commas are not stripped
      before `Integer.parseInt`, so such a cell aborts the extraction. */
  lemma ParseIntRejectsComma(s: string)
    requires ',' in s
    ensures ParseInt(s).Err?
  {
  }

  /** Index of the first '.' in `s`, or |s| when there is none. */
  function DotIndex(s: string): (k: nat)
    ensures k <= |s| && '.' !in s[..k]
    ensures k < |s| ==> s[k] == '.'
  {
    if s == [] then 0
    else if s[0] == '.' then 0
    else
      var k := 1 + DotIndex(s[1..]);
      assert s[..k] == [s[0]] + s[1..][..k - 1];
      k
  }

  /** The value of the digits `f` read as a fraction: "5" is 0.5, "25" is 0.25. */
  function FractionValue(f: string): (v: real)
    requires AllDigits(f)
    ensures 0.0 <= v < 1.0
  {
    if f == [] then 0.0
    else ((f[0] as int - '0' as int) as real + FractionValue(f[1..])) / 10.0
  }

  /** The value of `w.f` for digit strings `w` and `f`. */
  function DecimalValue(w: string, f: string): (v: real)
    requires AllDigits(w) && AllDigits(f)
    ensures v >= 0.0
    ensures f == [] ==> v == DigitsValue(w) as real
  {
    DigitsValue(w) as real + FractionValue(f)
  }

  /** `Double.parseDouble(s)` on plain decimal text: surrounding blanks are ignored, then an
      optional sign, digits, and at most one '.', with at least one digit in all. */
  function ParseDecimal(s: string): (r: Result<real, NumberFormatError>)
    ensures r.Err? ==> r.error == NumberFormat(s)
    ensures Text.AllBlank(s) ==> r.Err?
  {
    match ReadDecimal(Text.Trim(s))
    case Some(v) => Ok(v)
    case None => Err(NumberFormat(s))
  }

  /** The value of already trimmed decimal text, or None when it is not of that form. */
  function ReadDecimal(t: string): (r: Option<real>)
    ensures t == [] ==> r == None
  {
    if t == [] then None
    else
      var negative := t[0] == '-';
      var body := if t[0] == '-' || t[0] == '+' then t[1..] else t;
      var k := DotIndex(body);
      var whole := body[..k];
      var fraction := if k < |body| then body[k + 1..] else [];
      if !AllDigits(whole) || !AllDigits(fraction) || |whole| + |fraction| == 0 then None
      else
        var v := DecimalValue(whole, fraction);
        Some(if negative then -v else v)
  }

  /** Blanks around the text do not change what `parseDouble` reads. */
  lemma ParseDecimalTrimmed(s: string)
    ensures ParseDecimal(Text.Trim(s)).Ok? == ParseDecimal(s).Ok?
    ensures ParseDecimal(s).Ok? ==> ParseDecimal(Text.Trim(s)).value == ParseDecimal(s).value
  {
    Text.TrimIdempotent(s);
  }

  /** On integer text the decimal parser agrees with the integer parser. */
  lemma ParseDecimalOfInt(n: int)
    requires IntMin <= n <= IntMax
    ensures ParseDecimal(IntToString(n)) == Ok(n as real)
  {
    var s := IntToString(n);
    var m: nat := if n < 0 then -n else n;
    var d := NatToString(m);
    IntToStringTrimmed(n);
    NatToStringValue(m);
    SignedWhole(s, d, n);
  }

  /** Trimmed digit text, unsigned or minus-signed, parses as the integer it denotes. */
  lemma SignedWhole(s: string, d: string, n: int)
    requires AllDigits(d) && d != [] && Text.Trim(s) == s
    requires (n >= 0 && s == d && DigitsValue(d) == n) || (n < 0 && s == "-" + d && DigitsValue(d) == -n)
    ensures ParseDecimal(s) == Ok(n as real)
  {
    assert s[0] == '-' <==> n < 0 by { assert IsDigit(d[0]); }
    ReadDecimalWhole(s, d);
  }

  /** Printed integers have no blanks to trim. */
  lemma IntToStringTrimmed(n: int)
    ensures var d := NatToString(if n < 0 then -n else n);
      IntToString(n) == d || IntToString(n) == "-" + d
    ensures Text.Trim(IntToString(n)) == IntToString(n)
  {
    var s := IntToString(n);
    var d := NatToString(if n < 0 then -n else n);
    assert IsDigit(d[|d| - 1]) && s[|s| - 1] == d[|d| - 1];
    Text.TrimTrimmed(s);
  }

  /** Digit text without a '.', unsigned or with a '+' or '-' sign, reads as that whole number. */
  lemma ReadDecimalWhole(t: string, d: string)
    requires AllDigits(d) && d != [] && (t == d || t == "-" + d || t == "+" + d)
    ensures ReadDecimal(t) == Some(if t[0] == '-' then -(DigitsValue(d) as real) else DigitsValue(d) as real)
  {
    var body := if t[0] == '-' || t[0] == '+' then t[1..] else t;
    assert t == d ==> IsDigit(t[0]);
    assert body == d;
    assert DotIndex(d) == |d|;
    assert d[..|d|] == d;
  }

  /** Unsigned fixed-point text `w.f` reads as the value of its digits. */
  lemma ReadDecimalFixed(w: string, f: string)
    requires AllDigits(w) && AllDigits(f) && w != []
    ensures ReadDecimal(w + "." + f) == Some(DecimalValue(w, f))
  {
    var t := w + "." + f;
    assert t[0] == w[0] && t[|w|] == '.';
    assert forall j :: 0 <= j < |w| ==> t[j] == w[j];
    assert DotIndex(t) == |w|;
    assert t[..|w|] == w && t[|w| + 1..] == f;
  }

  lemma DigitsExamples()
    ensures DigitsValue("10") == 10 && DigitsValue("50") == 50
  {
    assert "10"[..1] == "1" && "50"[..1] == "5";
  }

  lemma ThousandDigits()
    ensures DigitsValue("1050") == 1050
  {
    assert "1050"[..3] == "105" && "105"[..2] == "10" && "10"[..1] == "1";
  }

  /** "10.50" reads as 10.5. */
  lemma ParseDecimalExample()
    ensures ParseDecimal("10.50") == Ok(10.5)
  {
    Text.TrimTrimmed("10.50");
    assert "10.50" == "10" + "." + "50";
    ReadDecimalFixed("10", "50");
    DecimalExample();
  }

  /** "31.50" reads as 31.5. */
  lemma TotalExample()
    ensures ParseDecimal("31.50") == Ok(31.5)
  {
    Text.TrimTrimmed("31.50");
    assert "31.50" == "31" + "." + "50";
    ReadDecimalFixed("31", "50");
    TotalValue();
  }

  lemma TotalValue()
    ensures DecimalValue("31", "50") == 31.5
  {
    assert DigitsValue("31") == 31 by { assert "31"[..1] == "3"; }
    assert FractionValue("50") == 0.5 by { assert "50"[1..] == "0" && "0"[1..] == ""; }
  }

  lemma DecimalExample()
    ensures DecimalValue("10", "50") == 10.5
  {
    DigitsExamples();
    assert "50"[1..] == "0" && "0"[1..] == "";
    assert FractionValue("50") == 0.5;
  }

  /** Thousands separators are dropped before parsing: "1,050.00" reads as 1050. */
  lemma ThousandsExample()
    ensures ParseDecimal(Text.StripCommas("1,050.00")) == Ok(1050.0)
  {
    CommaExample();
    ParseDecimalWhole();
  }

  lemma ParseDecimalWhole()
    ensures ParseDecimal("1050.00") == Ok(1050.0)
  {
    Text.TrimTrimmed("1050.00");
    assert "1050.00" == "1050" + "." + "00";
    ReadDecimalFixed("1050", "00");
    ThousandValue();
  }

  lemma ThousandValue()
    ensures DecimalValue("1050", "00") == 1050.0
  {
    ThousandDigits();
    assert "00"[1..] == "0" && "0"[1..] == "";
    assert FractionValue("00") == 0.0;
  }

  lemma CommaExample()
    ensures Text.StripCommas("1,050.00") == "1050.00"
  {
    Text.StripCommaBetween("1", "050.00");
    assert "1" + "," + "050.00" == "1,050.00";
    assert "1" + "050.00" == "1050.00";
  }
}
