/** Scaled CQL decimals as text, and the reader that gives the number back. */
module DecimalFormat {
  import opened Basics
  import opened DecimalText
  import opened CqlDecimal

  /** Larger scales are written with an exponent instead of being spelled out. */
  const MAX_SCALE: int := 1000

  function Signs(negative: bool): string {
    if negative then "-" else ""
  }

  /** The spelled-out layouts: a whole number, a whole number with zeros appended, digits on both
      sides of the point, or a fraction below one. */
  function Layout(body: string, scale: int): string
    requires -MAX_SCALE <= scale <= MAX_SCALE
  {
    if scale == 0 then body
    else if scale < 0 then body + Zeros(-scale)
    else if |body| > scale then body[..|body| - scale] + "." + body[|body| - scale..]
    else "0" + "." + (Zeros(scale - |body|) + body)
  }

  function Magnitude(body: string, scale: int): string {
    if -MAX_SCALE <= scale <= MAX_SCALE then Layout(body, scale) else body + "e" + PrintInt(-scale)
  }

  function FormatDecimal(digits: string, scale: int): string {
    var negative := digits != "" && digits[0] == '-';
    Signs(negative) + Magnitude(if negative then digits[1..] else digits, scale)
  }

  /** `format_decimal` on the wire form of a decimal. */
  method FormatDecimalBytes(bytes: seq<byte>, scale: int) returns (out: string)
    ensures out == FormatDecimal(PrintInt(Signed(bytes)), scale)
  {
    var digits := SignedToDecimal(bytes);
    out := FormatDecimal(digits, scale);
  }

  // ---- the reader ---------------------------------------------------------------------------------

  /** mantissa times ten to the exponent. */
  datatype Number = Number(mantissa: int, exponent: int)

  predicate SameValue(a: Number, b: Number) {
    if a.exponent >= b.exponent then a.mantissa * Pow10(a.exponent - b.exponent) == b.mantissa
    else a.mantissa == b.mantissa * Pow10(b.exponent - a.exponent)
  }

  function IndexOf(s: string, c: char): (i: nat)
    ensures i <= |s| && (forall k | 0 <= k < i :: s[k] != c) && (i < |s| ==> s[i] == c)
  {
    if s == "" || s[0] == c then 0 else 1 + IndexOf(s[1..], c)
  }

  lemma {:induction false} IndexOfIs(s: string, c: char, i: nat)
    requires i <= |s| && (forall k | 0 <= k < i :: s[k] != c) && (i < |s| ==> s[i] == c)
    ensures IndexOf(s, c) == i
  {
    if i > 0 {
      IndexOfIs(s[1..], c, i - 1);
    }
  }

  /** Digits with an optional point that has digits on both sides: value without the point, and
      the number of digits behind it. */
  function ReadFixed(s: string): Option<(nat, nat)> {
    var i := IndexOf(s, '.');
    var whole := s[..i];
    var fraction := if i < |s| then s[i + 1..] else "";
    if whole == "" || !AllDigits(whole + fraction) || (i < |s| && fraction == "") then None
    else Some((NatValue(whole + fraction), |fraction|))
  }

  function ReadNumber(s: string): Option<Number> {
    var negative := s != "" && s[0] == '-';
    var body := if negative then s[1..] else s;
    var i := IndexOf(body, 'e');
    Assemble(negative, ReadFixed(body[..i]), if i < |body| then ReadInt(body[i + 1..]) else Some(0))
  }

  function Assemble(negative: bool, fixed: Option<(nat, nat)>, exponent: Option<int>): Option<Number> {
    if fixed.None? || exponent.None? then None
    else Some(Number(Negated(negative, fixed.value.0), exponent.value - fixed.value.1))
  }

  function Negated(negative: bool, m: int): int {
    if negative then -m else m
  }

  lemma StripSign(negative: bool, body: string)
    requires body != "" && IsDigit(body[0])
    ensures var s := Signs(negative) + body;
            s != "" && (s[0] == '-' <==> negative) && (if negative then s[1..] else s) == body
  {
    var s := Signs(negative) + body;
    assert negative ==> s[1..] == body;
    assert !negative ==> s == body;
  }

  lemma ReadParts(negative: bool, body: string, i: nat)
    requires body != "" && IsDigit(body[0]) && IndexOf(body, 'e') == i
    ensures ReadNumber(Signs(negative) + body) ==
            Assemble(negative, ReadFixed(body[..i]), if i < |body| then ReadInt(body[i + 1..]) else Some(0))
  {
    StripSign(negative, body);
    hide ReadFixed, IndexOf, Signs, IsDigit, ReadInt, Assemble;
  }

  /** Reading past a sign. */
  lemma ReadSigned(negative: bool, body: string, m: nat, fraction: nat)
    requires body != "" && IsDigit(body[0]) && (forall k | 0 <= k < |body| :: body[k] != 'e')
    requires ReadFixed(body) == Some((m, fraction))
    ensures ReadNumber(Signs(negative) + body) == Some(Number(Negated(negative, m), -(fraction as int)))
  {
    hide ReadFixed, IndexOf, Signs, ReadNumber;
    IndexOfIs(body, 'e', |body|);
    assert body[..|body|] == body;
    ReadParts(negative, body, |body|);
  }

  lemma ReadPlain(body: string)
    requires body != "" && AllDigits(body)
    ensures ReadFixed(body) == Some((NatValue(body), 0))
    ensures forall k | 0 <= k < |body| :: body[k] != 'e'
  {
    IndexOfIs(body, '.', |body|);
    assert body[..|body|] == body && body + "" == body;
  }

  lemma ReadPointed(whole: string, fraction: string)
    requires whole != "" && fraction != "" && AllDigits(whole) && AllDigits(fraction)
    ensures ReadFixed(whole + "." + fraction) == Some((NatValue(whole + fraction), |fraction|))
    ensures forall k | 0 <= k < |whole + "." + fraction| :: (whole + "." + fraction)[k] != 'e'
  {
    var s := whole + "." + fraction;
    assert s[|whole|] == '.';
    IndexOfIs(s, '.', |whole|);
    assert s[..|whole|] == whole && s[|whole| + 1..] == fraction;
  }

  lemma ReadExponent(negative: bool, body: string, e: int)
    requires body != "" && AllDigits(body)
    ensures ReadNumber(Signs(negative) + (body + "e" + PrintInt(e))) ==
              Some(Number(Negated(negative, NatValue(body)), e))
  {
    hide PrintNat, PrintInt, NatValue, ReadInt, ReadFixed, IndexOf, Signs, ReadNumber;
    var text := body + "e" + PrintInt(e);
    assert text[0] == body[0] && text[|body|] == 'e';
    IndexOfIs(text, 'e', |body|);
    ReadParts(negative, text, |body|);
    assert text[..|body|] == body && text[|body| + 1..] == PrintInt(e);
    ReadPlain(body);
    ReadPrintInt(e);
  }

  /** The sign and the digits `format_decimal` works on. */
  lemma SignAndBody(v: int)
    ensures var digits := PrintInt(v);
            var body := if v < 0 then digits[1..] else digits;
            && digits != "" && (digits[0] == '-' <==> v < 0)
            && body == PrintNat(if v < 0 then -v else v)
  {
    PrintNatIsCanonical(if v < 0 then -v else v);
    hide PrintNat, NatValue;
    if v < 0 {
      assert PrintInt(v)[1..] == PrintNat(-v);
    } else {
      assert IsDigit(PrintInt(v)[0]);
    }
  }

  lemma WholeLayoutReads(body: string, zeros: nat)
    requires body != "" && AllDigits(body)
    ensures var text := body + Zeros(zeros);
            && text != "" && IsDigit(text[0]) && (forall k | 0 <= k < |text| :: text[k] != 'e')
            && ReadFixed(text) == Some((NatValue(body) * Pow10(zeros), 0))
  {
    hide NatValue, Zeros, ReadFixed, Pow10;
    ZerosAreZero(zeros);
    NatValueConcat(body, Zeros(zeros));
    ReadPlain(body + Zeros(zeros));
  }

  lemma SplitLayoutReads(body: string, scale: nat)
    requires body != "" && AllDigits(body) && 0 < scale < |body|
    ensures var text := body[..|body| - scale] + "." + body[|body| - scale..];
            && text != "" && IsDigit(text[0]) && (forall k | 0 <= k < |text| :: text[k] != 'e')
            && ReadFixed(text) == Some((NatValue(body), scale))
  {
    assert body[..|body| - scale] + body[|body| - scale..] == body;
    ReadPointed(body[..|body| - scale], body[|body| - scale..]);
    hide NatValue, ReadFixed;
  }

  lemma LeadingZeroValue(zeros: string, s: string)
    requires NatValue(zeros) == 0
    ensures NatValue(zeros + s) == NatValue(s)
  {
    NatValueConcat(zeros, s);
    hide NatValue, Pow10;
  }

  lemma SmallLayoutReads(body: string, scale: nat)
    requires body != "" && AllDigits(body) && |body| <= scale
    ensures var text := "0" + "." + (Zeros(scale - |body|) + body);
            && text != "" && IsDigit(text[0]) && (forall k | 0 <= k < |text| :: text[k] != 'e')
            && ReadFixed(text) == Some((NatValue(body), scale))
  {
    var fraction := Zeros(scale - |body|) + body;
    assert NatValue("0") == 0 by { assert "0"[..0] == ""; }
    ZerosAreZero(scale - |body|);
    hide NatValue, ReadFixed, Zeros, Pow10;
    LeadingZeroValue(Zeros(scale - |body|), body);
    LeadingZeroValue("0", fraction);
    ReadPointed("0", fraction);
  }

  /** What the layouts read back as. */
  lemma LayoutReads(n: nat, scale: int)
    requires -MAX_SCALE <= scale <= MAX_SCALE
    ensures var text := Layout(PrintNat(n), scale);
            && text != "" && IsDigit(text[0]) && (forall k | 0 <= k < |text| :: text[k] != 'e')
            && ReadFixed(text) == Some(if scale < 0 then (n * Pow10(-scale), 0) else (n, scale))
  {
    var body := PrintNat(n);
    PrintNatIsCanonical(n);
    hide NatValue, ReadFixed, Zeros, PrintNat, Pow10;
    if scale == 0 {
      ReadPlain(body);
    } else if scale < 0 {
      WholeLayoutReads(body, -scale);
    } else if |body| > scale {
      SplitLayoutReads(body, scale);
    } else {
      SmallLayoutReads(body, scale);
    }
  }

  lemma FormatUnfolds(v: int, scale: int)
    ensures FormatDecimal(PrintInt(v), scale) == Signs(v < 0) + Magnitude(PrintNat(if v < 0 then -v else v), scale)
  {
    hide PrintNat, PrintInt, Magnitude, Signs;
    SignAndBody(v);
  }

  lemma SpelledOutReadsBack(v: int, scale: int)
    requires -MAX_SCALE <= scale <= MAX_SCALE
    ensures ReadNumber(FormatDecimal(PrintInt(v), scale)) ==
            Some(if scale < 0 then Number(v * Pow10(-scale), 0) else Number(v, -scale))
  {
    hide FormatDecimal, Layout, ReadFixed, ReadNumber, PrintNat, PrintInt, Signs, IsDigit, Pow10;
    FormatUnfolds(v, scale);
    var n := if v < 0 then -v else v;
    var text := Layout(PrintNat(n), scale);
    LayoutReads(n, scale);
    if scale < 0 {
      ReadSigned(v < 0, text, n * Pow10(-scale), 0);
      NegatedProduct(v, Pow10(-scale));
    } else {
      ReadSigned(v < 0, text, n, scale);
    }
  }

  lemma ExponentReadsBack(v: int, scale: int)
    requires !(-MAX_SCALE <= scale <= MAX_SCALE)
    ensures ReadNumber(FormatDecimal(PrintInt(v), scale)) == Some(Number(v, -scale))
  {
    hide FormatDecimal, ReadNumber, PrintNat, PrintInt, Signs, NatValue;
    FormatUnfolds(v, scale);
    var n := if v < 0 then -v else v;
    PrintNatIsCanonical(n);
    ReadExponent(v < 0, PrintNat(n), -scale);
  }

  /** The printed decimal is exact: up to the spelled-out range it reads back as the value with
      exactly `scale` digits behind the point (none when the scale is not positive), and beyond it
      as the value with that exponent. */
  lemma DecimalReadsBack(v: int, scale: int)
    ensures ReadNumber(FormatDecimal(PrintInt(v), scale)) ==
            Some(if -MAX_SCALE <= scale < 0 then Number(v * Pow10(-scale), 0) else Number(v, -scale))
  {
    if -MAX_SCALE <= scale <= MAX_SCALE {
      SpelledOutReadsBack(v, scale);
    } else {
      ExponentReadsBack(v, scale);
    }
  }

  lemma NegatedProduct(v: int, p: int)
    ensures Negated(v < 0, (if v < 0 then -v else v) * p) == v * p
  {
  }

  /** For every byte string and every scale the text denotes the two's-complement value times ten
      to the minus scale. */
  lemma DecimalIsExact(bytes: seq<byte>, scale: int)
    ensures var read := ReadNumber(FormatDecimal(PrintInt(Signed(bytes)), scale));
            read.Some? && SameValue(read.value, Number(Signed(bytes), -scale))
  {
    hide FormatDecimal, ReadNumber, PrintInt, Signed;
    DecimalReadsBack(Signed(bytes), scale);
    SameNumber(Signed(bytes), scale);
  }

  lemma SameNumber(v: int, scale: int)
    ensures SameValue(Number(v, -scale), Number(v, -scale))
    ensures scale < 0 ==> SameValue(Number(v * Pow10(-scale), 0), Number(v, -scale))
  {
    assert Pow10(0) == 1 && v * 1 == v;
    hide Pow10;
    assert scale < 0 ==> Pow10(-scale - 0) == Pow10(-scale);
  }

  /** Different decimals of one scale print differently. */
  lemma DecimalIsInjective(v: int, w: int, scale: int)
    requires FormatDecimal(PrintInt(v), scale) == FormatDecimal(PrintInt(w), scale)
    ensures v == w
  {
    DecimalReadsBack(v, scale);
    DecimalReadsBack(w, scale);
    if -MAX_SCALE <= scale < 0 {
      SameProduct(v, w, Pow10(-scale));
    }
  }

  lemma SameProduct(v: int, w: int, p: nat)
    requires p >= 1 && v * p == w * p
    ensures v == w
  {
    assert (v - w) * p == 0;
  }

  lemma PrintedZero(n: nat)
    ensures PrintNat(n)[0] == '0' <==> n == 0
    ensures n == 0 ==> |PrintNat(n)| == 1
  {
    PrintNatIsCanonical(n);
  }

  /** A sign is neither a letter nor a point. */
  lemma SignedForm(negative: bool, text: string)
    ensures 'e' in Signs(negative) + text <==> 'e' in text
    ensures '.' in Signs(negative) + text <==> '.' in text
  {
  }

  lemma PointedForm(sign: string, whole: string, fraction: string)
    requires AllDigits(fraction)
    ensures var text := sign + (whole + "." + fraction);
            && |text| > |fraction| && text[|text| - |fraction| - 1] == '.'
            && AllDigits(text[|text| - |fraction|..])
  {
    var text := sign + (whole + "." + fraction);
    assert text == (sign + whole + ".") + fraction;
    assert text[|text| - |fraction|..] == fraction;
  }

  lemma WholeForm(body: string, zeros: nat)
    requires AllDigits(body)
    ensures '.' !in body + Zeros(zeros) && body + Zeros(0) == body
  {
    ZerosAreZero(zeros);
  }

  /** The form of the text: an exponent exactly beyond a scale of 1000 either way, and otherwise a point
      exactly for a positive scale, with that many digits behind it. */
  lemma DecimalForm(v: int, scale: int)
    ensures var text := FormatDecimal(PrintInt(v), scale);
            && ('e' in text <==> scale < -1000 || 1000 < scale)
            && (0 < scale <= 1000 ==>
                |text| > scale && text[|text| - scale - 1] == '.' && AllDigits(text[|text| - scale..]))
            && (-1000 <= scale <= 0 ==> '.' !in text)
  {
    hide PrintNat, NatValue, PrintInt, FormatDecimal, Zeros, Signs;
    FormatUnfolds(v, scale);
    var n := if v < 0 then -v else v;
    var body := PrintNat(n);
    PrintNatIsCanonical(n);
    SignedForm(v < 0, Magnitude(body, scale));
    if scale < -1000 || 1000 < scale {
      assert (body + "e" + PrintInt(-scale))[|body|] == 'e';
    } else {
      LayoutReads(n, scale);
      if scale <= 0 {
        WholeForm(body, -scale);
      } else {
        LayoutForm(Signs(v < 0), body, scale);
      }
    }
  }

  lemma LayoutForm(sign: string, body: string, scale: nat)
    requires body != "" && AllDigits(body) && 0 < scale <= 1000
    ensures var text := sign + Layout(body, scale);
            && |text| > scale && text[|text| - scale - 1] == '.' && AllDigits(text[|text| - scale..])
  {
    hide Zeros;
    if |body| > scale {
      PointedForm(sign, body[..|body| - scale], body[|body| - scale..]);
    } else {
      ZerosAreZero(scale - |body|);
      PointedForm(sign, "0", Zeros(scale - |body|) + body);
    }
  }

  /** How many digits the text starts with. */
  function DigitRun(s: string): (i: nat)
    ensures i <= |s|
  {
    if s == "" || !IsDigit(s[0]) then 0 else 1 + DigitRun(s[1..])
  }

  lemma {:induction false} DigitRunIs(whole: string, rest: string)
    requires AllDigits(whole) && (rest == "" || !IsDigit(rest[0]))
    ensures DigitRun(whole + rest) == |whole| && (whole + rest)[..|whole|] == whole
    decreases |whole|
  {
    if whole == "" {
      assert whole + rest == rest;
    } else {
      DigitRunIs(whole[1..], rest);
      assert (whole + rest)[1..] == whole[1..] + rest;
    }
  }

  /** The digits the magnitude starts with carry no superfluous leading zero, whatever the scale, except
      that zero with a negative scale that is spelled out becomes a run of zeros. */
  lemma LeadingZerosOnlyForScaledZero(n: nat, scale: int)
    ensures var text := Magnitude(PrintNat(n), scale);
            Canonical(text[..DigitRun(text)]) <==> !(n == 0 && -MAX_SCALE <= scale < 0)
  {
    hide PrintNat, NatValue, DigitRun, Zeros, PrintInt;
    PrintNatIsCanonical(n);
    PrintedZero(n);
    var body := PrintNat(n);
    if !(-MAX_SCALE <= scale <= MAX_SCALE) {
      DigitRunIs(body, "e" + PrintInt(-scale));
      assert body + "e" + PrintInt(-scale) == body + ("e" + PrintInt(-scale));
    } else if scale <= 0 {
      WholeRun(body, -scale);
    } else if |body| > scale {
      var whole, fraction := body[..|body| - scale], body[|body| - scale..];
      DigitRunIs(whole, "." + fraction);
      assert whole + "." + fraction == whole + ("." + fraction);
    } else {
      var fraction := Zeros(scale - |body|) + body;
      DigitRunIs("0", "." + fraction);
      assert "0" + "." + fraction == "0" + ("." + fraction);
    }
  }

  lemma WholeRun(body: string, zeros: nat)
    requires body != "" && AllDigits(body)
    ensures var text := body + Zeros(zeros);
            && text[..DigitRun(text)] == text
            && (Canonical(text) <==> |text| == 1 || body[0] != '0')
            && |text| == |body| + zeros
            && body + Zeros(0) == body
  {
    ZerosAreZero(zeros);
    var text := body + Zeros(zeros);
    assert AllDigits(text);
    DigitRunIs(text, "");
    assert text + "" == text;
  }
}
