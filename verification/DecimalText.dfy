/** Decimal numerals: canonical printing, zero padding and the readers that undo them. */
module DecimalText {
  import opened Basics

  function Pow10(n: nat): (r: nat)
    ensures r >= 1
  {
    if n == 0 then 1 else 10 * Pow10(n - 1)
  }

  predicate IsDigit(c: char) {
    '0' <= c <= '9'
  }

  predicate AllDigits(s: string) {
    forall i | 0 <= i < |s| :: IsDigit(s[i])
  }

  type Digit = d: int | 0 <= d < 10

  function DigitChar(d: Digit): (c: char)
    ensures IsDigit(c) && DigitValue(c) == d
  {
    ('0' as int + d) as char
  }

  function DigitValue(c: char): (d: nat)
    ensures IsDigit(c) ==> d < 10
  {
    if IsDigit(c) then c as int - '0' as int else 0
  }

  /** The value of a string of digits. */
  function NatValue(s: string): nat {
    if s == "" then 0 else NatValue(s[..|s| - 1]) * 10 + DigitValue(s[|s| - 1])
  }

  /** A numeral in canonical form: no leading zero, or zero itself. */
  predicate Canonical(s: string) {
    s != "" && AllDigits(s) && (s[0] == '0' ==> |s| == 1)
  }

  function PrintNat(n: nat): string {
    if n < 10 then [DigitChar(n)] else PrintNat(n / 10) + [DigitChar(n % 10)]
  }

  lemma {:induction false} PrintNatIsCanonical(n: nat)
    ensures Canonical(PrintNat(n)) && NatValue(PrintNat(n)) == n
    ensures n > 0 ==> PrintNat(n)[0] != '0'
  {
    var s := PrintNat(n);
    if n < 10 {
      assert s[..0] == "";
    } else {
      PrintNatIsCanonical(n / 10);
      assert s[..|s| - 1] == PrintNat(n / 10) && s[|s| - 1] == DigitChar(n % 10);
    }
  }

  function PrintInt(n: int): string {
    if n < 0 then "-" + PrintNat(-n) else PrintNat(n)
  }

  /** Reads an optional sign and at least one digit. */
  function ReadInt(s: string): Option<int> {
    var body := if s != "" && s[0] == '-' then s[1..] else s;
    var magnitude: int := NatValue(body);
    if body == "" || !AllDigits(body) then None
    else if body == s then Some(magnitude)
    else Some(-magnitude)
  }

  lemma ReadPrintInt(n: int)
    ensures ReadInt(PrintInt(n)) == Some(n)
  {
    var s := PrintInt(n);
    PrintNatIsCanonical(if n < 0 then -n else n);
    hide PrintNat, NatValue;
    if n < 0 {
      assert s[1..] == PrintNat(-n) && s[0] == '-';
    } else {
      assert IsDigit(s[0]);
    }
  }

  function Zeros(n: nat): string {
    seq(n, _ => '0')
  }

  lemma {:induction false} ZerosAreZero(n: nat)
    ensures |Zeros(n)| == n && AllDigits(Zeros(n)) && NatValue(Zeros(n)) == 0
  {
    if n > 0 {
      ZerosAreZero(n - 1);
      assert Zeros(n)[..n - 1] == Zeros(n - 1);
    }
  }

  lemma TimesTen(a: int, p: int)
    ensures a * (10 * p) == a * p * 10
  {
  }

  lemma {:induction false} NatValueConcat(s: string, t: string)
    ensures NatValue(s + t) == NatValue(s) * Pow10(|t|) + NatValue(t)
    decreases |t|
  {
    if t == "" {
      assert s + t == s;
    } else {
      var init := t[..|t| - 1];
      NatValueConcat(s, init);
      assert (s + t)[..|s + t| - 1] == s + init;
      TimesTen(NatValue(s), Pow10(|init|));
    }
  }

  /** `{n:0width$}` for a natural number. */
  function PadNat(n: nat, width: nat): string {
    var digits := PrintNat(n);
    if |digits| >= width then digits else Zeros(width - |digits|) + digits
  }

  lemma PadNatReads(n: nat, width: nat)
    ensures var s := PadNat(n, width);
            AllDigits(s) && NatValue(s) == n && |s| >= width && s != ""
    ensures |PrintNat(n)| <= width ==> |PadNat(n, width)| == width
  {
    hide PrintNat, Zeros, NatValue, Pow10, IsDigit;
    PrintNatIsCanonical(n);
    var digits := PrintNat(n);
    if |digits| < width {
      ZerosAreZero(width - |digits|);
      NatValueConcat(Zeros(width - |digits|), digits);
    }
  }

  /** `{n:0width$}` for an integer: the sign takes one place. */
  function PadInt(n: int, width: nat): string {
    if n < 0 then "-" + PadNat(-n, if width == 0 then 0 else width - 1) else PadNat(n, width)
  }

  lemma ReadPadInt(n: int, width: nat)
    ensures ReadInt(PadInt(n, width)) == Some(n)
  {
    var s := PadInt(n, width);
    PadNatReads(if n < 0 then -n else n, if n >= 0 || width == 0 then width else width - 1);
    hide PadNat, NatValue;
    if n < 0 {
      assert s[0] == '-' && s[1..] == PadNat(-n, if width == 0 then 0 else width - 1);
    } else {
      assert IsDigit(s[0]);
    }
  }

  lemma {:induction false} PrintNatLength(n: nat, k: nat)
    requires 0 < k && n < Pow10(k)
    ensures |PrintNat(n)| <= k
    decreases k
  {
    assert Pow10(k) == 10 * Pow10(k - 1) && Pow10(0) == 1;
    if n >= 10 {
      PrintNatLength(n / 10, k - 1);
    }
  }
}
