/** Signed decimal numbers as text, in the range of a 64-bit integer. */
module Decimal {
  import opened Trace

  predicate IsDigit(c: char) { '0' <= c <= '9' }

  function DigitValue(c: char): nat
    requires IsDigit(c)
  {
    c as int - '0' as int
  }

  function DigitChar(n: nat): char
    requires n < 10
  {
    ('0' as int + n) as char
  }

  predicate Numeral(s: string) {
    s != "" && forall i :: 0 <= i < |s| ==> IsDigit(s[i])
  }

  function Value(s: string): nat
    requires Numeral(s)
  {
    (if |s| == 1 then 0 else 10 * Value(s[..|s| - 1])) + DigitValue(s[|s| - 1])
  }

  predicate Signed(s: string) { s != "" && (s[0] == '-' || s[0] == '+') }

  /** One optional sign and at least one digit; a number that does not fit is refused. */
  function ParseInt(s: string): Option<int> {
    var body := if Signed(s) then s[1..] else s;
    if !Numeral(body) then None
    else
      var n: int := Value(body);
      var v := if Signed(s) && s[0] == '-' then -n else n;
      if I64_MIN <= v <= I64_MAX then Some(v) else None
  }

  function Numerals(n: nat): string {
    if n < 10 then [DigitChar(n)] else Numerals(n / 10) + [DigitChar(n % 10)]
  }

  function PrintInt(n: int): string {
    if n < 0 then "-" + Numerals(-n) else Numerals(n)
  }

  lemma {:induction false} NumeralsMeaning(n: nat)
    ensures Numeral(Numerals(n)) && Value(Numerals(n)) == n
  {
    if n >= 10 {
      NumeralsMeaning(n / 10);
      var s := Numerals(n / 10);
      assert Numerals(n)[..|s|] == s;
    }
  }

  lemma ValueSnoc(s: string, c: char)
    requires Numeral(s) && IsDigit(c)
    ensures Numeral(s + [c]) && Value(s + [c]) == 10 * Value(s) + DigitValue(c)
  {
    assert (s + [c])[..|s|] == s;
  }

  lemma ParsePrinted(n: int)
    requires I64_MIN <= n <= I64_MAX
    ensures ParseInt(PrintInt(n)) == Some(n)
  {
    NumeralsMeaning(Abs(n));
    var body := Numerals(Abs(n));
    assert !Signed(body) by { assert IsDigit(body[0]); }
    if n < 0 {
      assert PrintInt(n)[1..] == body;
    }
  }

  /** Nothing but digits and a minus sign is printed, so no separator is. */
  lemma PrintedPlain(n: int)
    ensures PrintInt(n) != ""
    ensures forall c :: c in PrintInt(n) ==> IsDigit(c) || c == '-'
  {
    NumeralsMeaning(Abs(n));
  }

  // ---- What a text says -------------------------------------------------------------------------

  function TenTo(n: nat): nat { if n == 0 then 1 else 10 * TenTo(n - 1) }

  /** Each digit by its place. */
  function Places(s: string): nat
    requires forall i :: 0 <= i < |s| ==> IsDigit(s[i])
  {
    if s == "" then 0 else DigitValue(s[0]) * TenTo(|s| - 1) + Places(s[1..])
  }

  lemma {:induction false} PlacesSnoc(s: string, c: char)
    requires (forall i :: 0 <= i < |s| ==> IsDigit(s[i])) && IsDigit(c)
    ensures Places(s + [c]) == 10 * Places(s) + DigitValue(c)
  {
    if s == "" {
      assert (s + [c])[1..] == "";
    } else {
      assert (s + [c])[1..] == s[1..] + [c];
      PlacesSnoc(s[1..], c);
      OnePlaceUp(DigitValue(s[0]), |s| - 1);
    }
  }

  lemma {:induction false} OnePlaceUp(digit: nat, n: nat)
    ensures digit * TenTo(n + 1) == 10 * (digit * TenTo(n))
  {
    assert TenTo(n + 1) == 10 * TenTo(n);
  }

  lemma {:induction false} ValueIsPlaces(s: string)
    requires Numeral(s)
    ensures Value(s) == Places(s)
  {
    var init, c := s[..|s| - 1], s[|s| - 1];
    assert s == init + [c];
    PlacesSnoc(init, c);
    if init != "" {
      ValueIsPlaces(init);
    }
  }

  /** The text is this sign, or none, and these digits. */
  predicate Spells(s: string, sign: string, digits: string) {
    s == sign + digits && sign in {"", "+", "-"} && Numeral(digits)
  }

  ghost predicate Says(s: string, v: int) {
    exists sign, digits :: Spells(s, sign, digits) && v == (if sign == "-" then -1 else 1) * Places(digits)
  }

  lemma SpeltOnce(s: string, sign: string, digits: string)
    requires Spells(s, sign, digits)
    ensures sign == (if Signed(s) then s[..1] else "") && digits == if Signed(s) then s[1..] else s
  {
    assert IsDigit(digits[0]);
    if sign == "" {
      assert s[0] == digits[0];
    } else {
      assert s[..1] == sign && s[1..] == digits;
    }
  }

  /** The only way a text can be a sign and digits. */
  lemma {:induction false} SaysExactly(s: string, v: int)
    ensures var body := if Signed(s) then s[1..] else s;
      Says(s, v) <==> Numeral(body) && v == (if Signed(s) && s[0] == '-' then -1 else 1) * Places(body)
  {
    var sign, body := if Signed(s) then s[..1] else "", if Signed(s) then s[1..] else s;
    assert s == sign + body;
    assert Signed(s) ==> sign == "-" || sign == "+";
    assert Numeral(body) ==> Spells(s, sign, body);
    forall sign', digits | Spells(s, sign', digits) ensures sign' == sign && digits == body {
      SpeltOnce(s, sign', digits);
    }
  }

  /** A text is read exactly as what it says, when that fits 64 bits; any other text is refused. */
  lemma {:induction false} ParsesExactly(s: string, v: int)
    ensures ParseInt(s) == Some(v) <==> Says(s, v) && -0x8000_0000_0000_0000 <= v < 0x8000_0000_0000_0000
  {
    SaysExactly(s, v);
    var body := if Signed(s) then s[1..] else s;
    if Numeral(body) {
      ValueIsPlaces(body);
    }
  }

  /** A minus sign is printed of negative numbers alone, and no zero before other digits. */
  lemma {:induction false} PrintedShort(n: int)
    ensures var s := PrintInt(n);
      s != "" && (s[0] == '-' <==> n < 0) && (|s| > 1 ==> s[0] != '0')
  {
    NumeralsShort(Abs(n));
    NumeralsMeaning(Abs(n));
    assert IsDigit(Numerals(Abs(n))[0]);
  }

  lemma {:induction false} NumeralsShort(n: nat)
    ensures Numerals(n) != "" && (n != 0 ==> Numerals(n)[0] != '0') && (n == 0 ==> |Numerals(n)| == 1)
  {
    if n >= 10 {
      NumeralsShort(n / 10);
    }
  }
}
