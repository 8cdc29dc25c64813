/** Decimal printing and reading of unsigned numbers, and hexadecimal reading of session ids. */
module Digits {
  import opened Text

  predicate IsDigit(c: char)
  {
    '0' <= c <= '9'
  }

  function DigitValue(c: char): (n: nat)
    requires IsDigit(c)
    ensures n < 10
  {
    c as int - '0' as int
  }

  function Digit(n: nat): char
    requires n < 10
  {
    ('0' as int + n) as char
  }

  /** `%ld` of a nonnegative number, and `Rest::ulltostring`. */
  function Decimal(n: nat): (s: string)
    ensures s != "" && forall i :: 0 <= i < |s| ==> IsDigit(s[i])
  {
    if n < 10 then [Digit(n)] else Decimal(n / 10) + [Digit(n % 10)]
  }

  /** The number that a string of digits writes. */
  function Value(s: string): nat
    requires forall i :: 0 <= i < |s| ==> IsDigit(s[i])
  {
    if s == "" then 0 else Value(s[..|s| - 1]) * 10 + DigitValue(s[|s| - 1])
  }

  function LeadingDigits(s: string): (r: string)
    ensures forall i :: 0 <= i < |r| ==> IsDigit(r[i])
  {
    if s == "" || !IsDigit(s[0]) then "" else [s[0]] + LeadingDigits(s[1..])
  }

  /** `strtoul(s, NULL, 10)` on text that does not begin with blanks or a sign. */
  function ReadDecimal(s: string): nat
  {
    Value(LeadingDigits(s))
  }

  lemma {:induction false} ValueDecimal(n: nat)
    ensures Value(Decimal(n)) == n
  {
    if n >= 10 {
      ValueDecimal(n / 10);
      var s := Decimal(n);
      assert s[..|s| - 1] == Decimal(n / 10);
    } else {
      assert [Digit(n)][..0] == "";
    }
  }

  lemma {:induction false} AllDigits(s: string)
    requires forall i :: 0 <= i < |s| ==> IsDigit(s[i])
    ensures LeadingDigits(s) == s
    decreases |s|
  {
    if s != "" {
      AllDigits(s[1..]);
      assert s == [s[0]] + s[1..];
    }
  }

  /** A printed number reads back. */
  lemma ReadPrinted(n: nat)
    ensures ReadDecimal(Decimal(n)) == n
  {
    AllDigits(Decimal(n));
    ValueDecimal(n);
  }

  /** The value of a hexadecimal digit, in upper or lower case. */
  function Hex(c: char): (r: Option<nat>)
    ensures r.Some? ==> r.value < 16
  {
    if IsDigit(c) then Some(DigitValue(c))
    else if 'A' <= c <= 'F' then Some(c as int - 'A' as int + 10)
    else if 'a' <= c <= 'f' then Some(c as int - 'a' as int + 10)
    else None
  }

  /** The digits of `generate_token`: upper-case hexadecimal. */
  predicate IsHex(c: char)
  {
    IsDigit(c) || 'A' <= c <= 'F'
  }

  function HexDigit(c: char): (n: nat)
    requires IsHex(c)
    ensures n < 16
  {
    Hex(c).value
  }

  predicate HexId(id: string)
  {
    |id| == 16 && forall i :: 0 <= i < |id| ==> IsHex(id[i])
  }

  function Pow16(n: nat): nat
  {
    if n == 0 then 1 else 16 * Pow16(n - 1)
  }

  /** `strtoull` of `0x` and the digits. */
  function HexValue(s: string): nat
    requires forall i :: 0 <= i < |s| ==> IsHex(s[i])
  {
    if s == "" then 0 else HexValue(s[..|s| - 1]) * 16 + HexDigit(s[|s| - 1])
  }

  lemma {:induction false} HexBound(s: string)
    requires forall i :: 0 <= i < |s| ==> IsHex(s[i])
    ensures HexValue(s) < Pow16(|s|)
    decreases |s|
  {
    if s != "" { HexBound(s[..|s| - 1]); }
  }

  lemma SameDigits(a: nat, x: nat, b: nat, y: nat)
    requires a * 16 + x == b * 16 + y && x < 16 && y < 16
    ensures a == b && x == y
  {
  }

  lemma HexDigitInjective(c: char, d: char)
    requires IsHex(c) && IsHex(d) && HexDigit(c) == HexDigit(d)
    ensures c == d
  {
    assert c as int == d as int;
  }

  lemma {:induction false} HexInjective(s: string, t: string)
    requires |s| == |t| && forall i :: 0 <= i < |s| ==> IsHex(s[i]) && IsHex(t[i])
    requires HexValue(s) == HexValue(t)
    ensures s == t
    decreases |s|
  {
    if s != "" {
      var n := |s| - 1;
      SameDigits(HexValue(s[..n]), HexDigit(s[n]), HexValue(t[..n]), HexDigit(t[n]));
      HexDigitInjective(s[n], t[n]);
      HexInjective(s[..n], t[..n]);
      assert s == s[..n] + [s[n]] && t == t[..n] + [t[n]];
    }
  }

  /** The decimal session id that a hexadecimal session id is converted to. */
  function SessionId(id: string): string
    requires HexId(id)
  {
    Decimal(HexValue(id))
  }

  /** Different session ids stay different, and none exceeds 64 bits. */
  lemma SessionIdInjective(id: string, id': string)
    requires HexId(id) && HexId(id')
    ensures HexValue(id) < 0x1_0000_0000_0000_0000
    ensures ReadDecimal(SessionId(id)) == HexValue(id)
    ensures SessionId(id) == SessionId(id') <==> id == id'
  {
    HexBound(id);
    assert Pow16(16) == 0x1_0000_0000_0000_0000 by {
      assert Pow16(4) == 0x1_0000;
      assert Pow16(8) == 0x1_0000_0000;
      assert Pow16(12) == 0x1_0000_0000_0000;
    }
    ReadPrinted(HexValue(id));
    if SessionId(id) == SessionId(id') {
      ValueDecimal(HexValue(id));
      ValueDecimal(HexValue(id'));
      HexInjective(id, id');
    }
  }

  // ------------------------------------------------------------------ digits by position

  function Pow10(n: nat): nat
  {
    if n == 0 then 1 else 10 * Pow10(n - 1)
  }

  lemma Carry(base: nat, front: nat, power: nat, init: nat, digit: nat)
    ensures (front * power + init) * base + digit == front * (base * power) + (init * base + digit)
  {
  }

  /** The digits in front count as many times more as there are digits behind. */
  lemma {:induction false} ValueConcat(a: string, b: string)
    requires forall i :: 0 <= i < |a + b| ==> IsDigit((a + b)[i])
    requires (forall i :: 0 <= i < |a| ==> IsDigit(a[i])) && forall i :: 0 <= i < |b| ==> IsDigit(b[i])
    ensures Value(a + b) == Value(a) * Pow10(|b|) + Value(b)
    decreases |b|
  {
    var n := |b|;
    if n == 0 {
      assert a + b == a;
    } else {
      var init := b[..n - 1];
      assert (a + b)[..|a + b| - 1] == a + init && (a + b)[|a + b| - 1] == b[n - 1];
      ValueConcat(a, init);
      Carry(10, Value(a), Pow10(n - 1), Value(init), DigitValue(b[n - 1]));
    }
  }

  lemma {:induction false} HexConcat(a: string, b: string)
    requires forall i :: 0 <= i < |a + b| ==> IsHex((a + b)[i])
    requires (forall i :: 0 <= i < |a| ==> IsHex(a[i])) && forall i :: 0 <= i < |b| ==> IsHex(b[i])
    ensures HexValue(a + b) == HexValue(a) * Pow16(|b|) + HexValue(b)
    decreases |b|
  {
    var n := |b|;
    if n == 0 {
      assert a + b == a;
    } else {
      var init := b[..n - 1];
      assert (a + b)[..|a + b| - 1] == a + init && (a + b)[|a + b| - 1] == b[n - 1];
      HexConcat(a, init);
      Carry(16, HexValue(a), Pow16(n - 1), HexValue(init), HexDigit(b[n - 1]));
    }
  }

  /** A single digit counts its place in the row of digits. */
  lemma OneDigit(c: char)
    ensures IsDigit(c) ==> Value([c]) == c as int - '0' as int
    ensures IsHex(c) ==> HexValue([c]) == if '0' <= c <= '9' then c as int - '0' as int else c as int - 'A' as int + 10
  {
    assert [c][..0] == "";
  }
}
