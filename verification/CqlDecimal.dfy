/** CQL varint and decimal values as text: two's-complement big-endian bytes are divided by ten
    in place, base 256, and the digits placed around a decimal point. */
module CqlDecimal {
  import opened Basics
  import opened DecimalText

  // ---- values of byte strings ----------------------------------------------------------------

  function Pow256(n: nat): (r: nat)
    ensures r >= 1
  {
    if n == 0 then 1 else 256 * Pow256(n - 1)
  }

  function Unsigned(s: seq<byte>): nat {
    if s == [] then 0 else Unsigned(s[..|s| - 1]) * 256 + s[|s| - 1]
  }

  /** Two's-complement value; the empty string is zero. */
  function Signed(s: seq<byte>): int {
    if s != [] && s[0] >= 128 then Unsigned(s) - Pow256(|s|) else Unsigned(s)
  }

  /** `b` shifted left by `places` bytes. */
  function Shifted(b: nat, places: nat): nat {
    if places == 0 then b else 256 * Shifted(b, places - 1)
  }

  lemma {:induction false} ShiftedUnits(b: nat, places: nat)
    ensures Shifted(b + 1, places) == Shifted(b, places) + Pow256(places)
    ensures Shifted(0, places) == 0
    ensures Shifted(255, places) + Pow256(places) == Pow256(places + 1)
    ensures b > 0 ==> Shifted(b, places) > 0
  {
    if places > 0 {
      ShiftedUnits(b, places - 1);
    }
  }

  lemma {:induction false} UnsignedFront(b: byte, s: seq<byte>)
    ensures Unsigned([b] + s) == Shifted(b, |s|) + Unsigned(s)
    decreases |s|
  {
    var t := [b] + s;
    if s == [] {
      assert t[..0] == [];
    } else {
      var init := s[..|s| - 1];
      UnsignedFront(b, init);
      assert t[..|t| - 1] == [b] + init;
    }
  }

  lemma {:induction false} UnsignedBound(s: seq<byte>)
    ensures Unsigned(s) < Pow256(|s|)
    decreases |s|
  {
    if s != [] {
      UnsignedBound(s[..|s| - 1]);
    }
  }

  lemma {:induction false} UnsignedZero(s: seq<byte>)
    ensures Unsigned(s) == 0 <==> forall i | 0 <= i < |s| :: s[i] == 0
    decreases |s|
  {
    if s != [] {
      var init := s[..|s| - 1];
      UnsignedZero(init);
      assert forall i | 0 <= i < |init| :: init[i] == s[i];
    }
  }

  // ---- negation -------------------------------------------------------------------------------

  function Complemented(s: seq<byte>): seq<byte> {
    seq(|s|, i requires 0 <= i < |s| => 255 - s[i])
  }

  lemma {:induction false} ComplementValue(s: seq<byte>)
    ensures Unsigned(Complemented(s)) == Pow256(|s|) - 1 - Unsigned(s)
    decreases |s|
  {
    if s != [] {
      var init := s[..|s| - 1];
      ComplementValue(init);
      assert Complemented(s)[..|s| - 1] == Complemented(init);
    }
  }

  method Complement(a: array<byte>)
    modifies a
    ensures a[..] == Complemented(old(a[..]))
  {
    for i := 0 to a.Length
      invariant forall k | 0 <= k < i :: a[k] == 255 - old(a[k])
      invariant forall k | i <= k < a.Length :: a[k] == old(a[k])
    {
      a[i] := 255 - a[i];
    }
  }

  /** Adds one with carry, from the least significant byte; an overflow wraps. */
  method Increment(a: array<byte>) returns (carry: nat)
    modifies a
    ensures carry <= 1
    ensures Unsigned(a[..]) + Carried(carry, a.Length) == old(Unsigned(a[..])) + 1
  {
    ghost var before := a[..];
    ghost var tail: seq<byte> := [];
    carry := 1;
    var i := a.Length;
    assert before[i..] == [] && Unsigned([]) == 0 && Carried(1, 0) == 1;
    hide Carried, Unsigned;
    while i > 0
      invariant 0 <= i <= a.Length && carry <= 1 && |tail| == a.Length - i
      invariant forall k | 0 <= k < i :: a[k] == before[k]
      invariant forall k | i <= k < a.Length :: a[k] == tail[k - i]
      invariant Unsigned(tail) + Carried(carry, |tail|) == Unsigned(before[i..]) + 1
    {
      i := i - 1;
      var sum := a[i] + carry;
      CarryStep(tail, before[i + 1..], a[i], carry);
      assert before[i..] == [a[i]] + before[i + 1..];
      a[i] := sum % 256;
      carry := sum / 256;
      tail := [a[i]] + tail;
    }
    assert a[..] == tail && before[0..] == before;
  }

  function Carried(carry: nat, places: nat): nat {
    if carry == 0 then 0 else Pow256(places)
  }

  lemma CarryStep(tail: seq<byte>, was: seq<byte>, b: byte, carry: nat)
    requires |tail| == |was| && carry <= 1
    requires Unsigned(tail) + Carried(carry, |tail|) == Unsigned(was) + 1
    ensures Unsigned([(b + carry) % 256] + tail) + Carried((b + carry) / 256, |tail| + 1) == Unsigned([b] + was) + 1
  {
    UnsignedFront(b, was);
    ShiftedUnits(b, |tail|);
    UnsignedFront((b + carry) % 256, tail);
    hide Unsigned, Shifted, Pow256;
    if carry == 0 {
      assert (b + carry) % 256 == b && (b + carry) / 256 == 0;
    } else if b == 255 {
      assert (b + carry) % 256 == 0 && (b + carry) / 256 == 1;
    } else {
      assert (b + carry) % 256 == b + 1 && (b + carry) / 256 == 0;
    }
  }

  // ---- division by ten --------------------------------------------------------------------------

  method DivideByTen(a: array<byte>) returns (remainder: nat)
    modifies a
    ensures Unsigned(a[..]) == old(Unsigned(a[..])) / 10
    ensures remainder == old(Unsigned(a[..])) % 10
  {
    ghost var before := a[..];
    remainder := 0;
    for i := 0 to a.Length
      invariant remainder < 10
      invariant Unsigned(before[..i]) == 10 * Unsigned(a[..i]) + remainder
      invariant a[i..] == before[i..]
    {
      assert a[i] == before[i] by { assert a[i..][0] == before[i..][0]; }
      assert before[..i + 1][..i] == before[..i];
      var current := remainder * 256 + a[i];
      ghost var head := a[..i];
      a[i] := current / 10;
      remainder := current % 10;
      assert a[..i + 1] == head + [a[i]] && (head + [a[i]])[..i] == head;
      assert a[i + 1..] == before[i + 1..];
    }
    assert a[..a.Length] == a[..] && before[..a.Length] == before;
  }

  // ---- signed_be_to_decimal ----------------------------------------------------------------------

  function Reversed(digits: seq<Digit>): string {
    if digits == [] then "" else [DigitChar(digits[|digits| - 1])] + Reversed(digits[..|digits| - 1])
  }

  /** What remains to be printed, followed by what is already known. */
  function Rest(n: nat): string {
    if n == 0 then "" else PrintNat(n)
  }

  lemma RestUnfolds(n: nat)
    requires n > 0
    ensures Rest(n) == Rest(n / 10) + [DigitChar(n % 10)]
  {
    hide DigitChar;
  }

  lemma RestStep(n: nat, digits: seq<Digit>)
    requires n > 0
    ensures Rest(n) + Reversed(digits) == Rest(n / 10) + Reversed(digits + [n % 10])
  {
    assert (digits + [n % 10])[..|digits|] == digits;
    RestUnfolds(n);
    hide Rest, DigitChar;
    assert Reversed(digits + [n % 10]) == [DigitChar(n % 10)] + Reversed(digits);
  }

  predicate AnyNonZero(s: seq<byte>) {
    exists i :: 0 <= i < |s| && s[i] != 0
  }

  /** The digits of the magnitude, least significant first: repeated division until nothing is
      left.  Terminates because the magnitude shrinks. */
  method DigitsOf(a: array<byte>) returns (digits: seq<Digit>)
    modifies a
    ensures Reversed(digits) == PrintNat(old(Unsigned(a[..])))
  {
    ghost var total := Unsigned(a[..]);
    digits := [];
    UnsignedZero(a[..]);
    while AnyNonZero(a[..])
      invariant AnyNonZero(a[..]) <==> Unsigned(a[..]) > 0
      invariant Rest(total) == Rest(Unsigned(a[..])) + Reversed(digits)
      decreases Unsigned(a[..])
    {
      RestStep(Unsigned(a[..]), digits);
      var remainder := DivideByTen(a);
      digits := digits + [remainder];
      UnsignedZero(a[..]);
    }
    assert Rest(total) == Reversed(digits);
    if |digits| == 0 {
      digits := [0];
      assert [0][..0] == [];
    }
  }

  /** The output loop: digits back to front. */
  method Emit(prefix: string, digits: seq<Digit>) returns (out: string)
    ensures out == prefix + Reversed(digits)
  {
    out := prefix;
    var i := |digits|;
    assert digits[..i] == digits;
    while i > 0
      invariant 0 <= i <= |digits|
      invariant out + Reversed(digits[..i]) == prefix + Reversed(digits)
    {
      i := i - 1;
      assert digits[..i + 1][..i] == digits[..i];
      assert out + Reversed(digits[..i + 1]) == (out + [DigitChar(digits[i])]) + Reversed(digits[..i]);
      out := out + [DigitChar(digits[i])];
    }
  }

  /** `signed_be_to_decimal`: the canonical numeral of the two's-complement value, for every byte
      string. */
  method SignedToDecimal(bytes: seq<byte>) returns (out: string)
    ensures out == PrintInt(Signed(bytes))
  {
    if bytes == [] {
      return "0";
    }
    hide Unsigned, Pow256, Carried, Reversed, PrintNat;
    var negative := bytes[0] >= 128;
    var magnitude := new byte[|bytes|](i requires 0 <= i < |bytes| => bytes[i]);
    assert magnitude[..] == bytes;
    if negative {
      Complement(magnitude);
      ComplementValue(bytes);
      var carry := Increment(magnitude);
      NegativeMagnitude(bytes, magnitude[..], carry);
    }
    var digits := DigitsOf(magnitude);
    out := Emit(if negative then "-" else "", digits);
  }

  /** A negative number's magnitude fits, so the carry is lost only in theory. */
  lemma NegativeMagnitude(bytes: seq<byte>, magnitude: seq<byte>, carry: nat)
    requires bytes != [] && bytes[0] >= 128 && |magnitude| == |bytes| && carry <= 1
    requires Unsigned(magnitude) + Carried(carry, |bytes|) == Pow256(|bytes|) - 1 - Unsigned(bytes) + 1
    ensures Unsigned(magnitude) == -Signed(bytes) && Signed(bytes) < 0
  {
    UnsignedBound(bytes);
    UnsignedBound(magnitude);
    assert bytes == [bytes[0]] + bytes[1..];
    UnsignedFront(bytes[0], bytes[1..]);
    ShiftedUnits(bytes[0], |bytes| - 1);
    hide Unsigned, Shifted, Pow256;
  }
}
