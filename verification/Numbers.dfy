/** Number printing: itoa with its in-place reversal, and the %#x and %d conversions of printf. */
module Numbers {
  import opened Bytes
  import opened Arith

  const MINUS: byte := 45
  const UINT32 := 0x1_0000_0000

  /** lookup[d] in "0123456789ABCDEFGHIJKLMNOPQRSTUVWXYZ". */
  function Lookup(d: int): byte
    requires 0 <= d < 36
  {
    if d < 10 then 48 + d else 55 + d
  }

  // ---------------------------------------------------------------- specification

  /** The digit a character stands for, or -1. */
  function DigitOf(c: byte): int {
    if 48 <= c < 58 then c - 48 else if 65 <= c < 91 then c - 55 else -1
  }

  /** The positional value of a digit string, most significant digit first. */
  function ValueOf(text: seq<byte>, radix: int): int {
    if text == [] then 0
    else ValueOf(text[..|text| - 1], radix) * radix + DigitOf(text[|text| - 1])
  }

  ghost predicate AllDigits(text: seq<byte>, radix: int) {
    forall i :: 0 <= i < |text| ==> 0 <= DigitOf(text[i]) < radix
  }

  /** A numeral: digits only, and no leading zero unless it is "0" itself. */
  ghost predicate Numeral(text: seq<byte>, radix: int) {
    text != [] && AllDigits(text, radix) && (|text| > 1 ==> text[0] != ZERO)
  }

  /** The digits of a positive number; none for 0. */
  function Digits(v: nat, radix: int): (text: seq<byte>)
    requires 2 <= radix <= 36
    decreases v
  {
    if v == 0 then []
    else
      Quotient(v, radix);
      Digits(v / radix, radix) + [Lookup(v % radix)]
  }

  function Text(v: nat, radix: int): seq<byte>
    requires 2 <= radix <= 36
  {
    if v == 0 then [ZERO] else Digits(v, radix)
  }

  const DIGITS := "0123456789ABCDEFGHIJKLMNOPQRSTUVWXYZ"

  /** The digit characters: those of that string, in that order. */
  lemma DigitCharacters(d: int, c: byte)
    requires 0 <= d < 36
    ensures Lookup(d) == DIGITS[d] as int
    ensures DigitOf(c) == d <==> c == DIGITS[d] as int
  {
  }

  lemma LookupDigit(d: int)
    requires 0 <= d < 36
    ensures DigitOf(Lookup(d)) == d
    ensures Lookup(d) == ZERO <==> d == 0
  {
  }

  lemma ValueAppend(head: seq<byte>, c: byte, radix: int)
    ensures ValueOf(head + [c], radix) == ValueOf(head, radix) * radix + DigitOf(c)
  {
    assert (head + [c])[..|head|] == head;
  }

  lemma {:induction false} DigitsValue(v: nat, radix: int)
    requires 2 <= radix <= 36
    ensures ValueOf(Digits(v, radix), radix) == v
    ensures AllDigits(Digits(v, radix), radix)
    ensures v > 0 ==> Digits(v, radix) != [] && Digits(v, radix)[0] != ZERO
    decreases v
  {
    hide Lookup, DigitOf;
    if v > 0 {
      Quotient(v, radix);
      var q, d := v / radix, v % radix;
      DigitsValue(q, radix);
      LookupDigit(d);
      ValueAppend(Digits(q, radix), Lookup(d), radix);
    }
  }

  /** The text of a number is a numeral with that value. */
  lemma TextValue(v: nat, radix: int)
    requires 2 <= radix <= 36
    ensures Numeral(Text(v, radix), radix) && ValueOf(Text(v, radix), radix) == v
  {
    DigitsValue(v, radix);
    if v == 0 {
      assert [ZERO][..0] == [];
    }
  }

  lemma {:induction false} ValueBounds(text: seq<byte>, radix: int)
    requires 2 <= radix <= 36 && AllDigits(text, radix)
    ensures ValueOf(text, radix) >= 0
    ensures text != [] && text[0] != ZERO ==> ValueOf(text, radix) > 0
  {
    if text != [] {
      assert DigitOf(text[0]) == 0 <==> text[0] == ZERO;
      hide DigitOf;
      var head := text[..|text| - 1];
      ValueBounds(head, radix);
      ProductBounds(radix, ValueOf(head, radix));
    }
  }

  /** A number has only one numeral, so any two conversions that print one agree. */
  lemma {:induction false} NumeralUnique(a: seq<byte>, b: seq<byte>, radix: int)
    requires 2 <= radix <= 36
    requires AllDigits(a, radix) && AllDigits(b, radix)
    requires (a != [] ==> a[0] != ZERO) && (b != [] ==> b[0] != ZERO)
    requires ValueOf(a, radix) == ValueOf(b, radix)
    ensures a == b
    decreases |a|
  {
    ValueBounds(a, radix);
    ValueBounds(b, radix);
    if a != [] && b != [] {
      var ha, hb, da, db := a[..|a| - 1], b[..|b| - 1], DigitOf(a[|a| - 1]), DigitOf(b[|b| - 1]);
      DivModOf(ValueOf(ha, radix), da, radix);
      DivModOf(ValueOf(hb, radix), db, radix);
      assert radix * ValueOf(ha, radix) + da == radix * ValueOf(hb, radix) + db;
      NumeralUnique(ha, hb, radix);
      assert a == ha + [a[|a| - 1]] && b == hb + [b[|b| - 1]];
    }
  }

  lemma NumeralIsText(text: seq<byte>, radix: int)
    requires 2 <= radix <= 36 && Numeral(text, radix)
    ensures ValueOf(text, radix) >= 0 && text == Text(ValueOf(text, radix), radix)
  {
    ValueBounds(text, radix);
    var v := ValueOf(text, radix);
    DigitsValue(v, radix);
    if text[0] == ZERO {
      assert text == [ZERO] && text[..0] == [];
    } else {
      NumeralUnique(text, Digits(v, radix), radix);
    }
  }

  function Pow(b: int, k: nat): int { if k == 0 then 1 else b * Pow(b, k - 1) }

  lemma {:induction false} PowPositive(b: int, k: nat)
    requires b >= 2
    ensures Pow(b, k) > 0
  {
    if k > 0 {
      PowPositive(b, k - 1);
      ProductBounds(b, Pow(b, k - 1));
    }
  }

  lemma {:induction false} PowSum(b: int, m: nat, n: nat)
    ensures Pow(b, m + n) == Pow(b, m) * Pow(b, n)
  {
    if m > 0 {
      PowSum(b, m - 1, n);
      assert b * Pow(b, m - 1) * Pow(b, n) == b * (Pow(b, m - 1) * Pow(b, n));
    }
  }

  /** A number below b^k has at most k digits in any radix from b up. */
  lemma {:induction false} DigitsBound(v: nat, radix: int, b: int, k: nat)
    requires 2 <= b <= radix <= 36 && v < Pow(b, k)
    ensures |Digits(v, radix)| <= k
    decreases k
  {
    if v > 0 {
      Quotient(v, radix);
      PowPositive(b, k - 1);
      QuotientBelow(v, radix, b, Pow(b, k - 1));
      DigitsBound(v / radix, radix, b, k - 1);
    }
  }

  lemma Powers()
    ensures Pow(2, 32) == UINT32 && Pow(16, 8) == UINT32
  {
    assert Pow(2, 2) == 4 && Pow(16, 2) == 256;
    PowSum(2, 2, 2);
    PowSum(2, 4, 4);
    PowSum(2, 8, 8);
    PowSum(2, 16, 16);
    PowSum(16, 2, 2);
    PowSum(16, 4, 4);
  }

  /** Every 32-bit number prints in at most 32 digits, and in hexadecimal in at most 8. */
  lemma TextFits(v: nat, radix: int)
    requires 2 <= radix <= 36 && v < UINT32
    ensures 1 <= |Text(v, radix)| <= 32
    ensures radix == 16 ==> |Text(v, radix)| <= 8
  {
    hide Pow, Digits;
    DigitsValue(v, radix);
    Powers();
    DigitsBound(v, radix, 2, 32);
    if radix == 16 { DigitsBound(v, radix, 16, 8); }
  }

  lemma {:induction false} LeadingZeros(text: seq<byte>, zeros: seq<byte>, radix: int)
    requires forall i :: 0 <= i < |zeros| ==> zeros[i] == ZERO
    ensures ValueOf(zeros + text, radix) == ValueOf(text, radix)
  {
    var s := zeros + text;
    if text == [] {
      assert s == zeros;
      if zeros != [] {
        LeadingZeros([], zeros[..|zeros| - 1], radix);
        assert zeros[..|zeros| - 1] + [] == zeros[..|zeros| - 1];
      }
    } else {
      LeadingZeros(text[..|text| - 1], zeros, radix);
      assert s[..|s| - 1] == zeros + text[..|text| - 1];
    }
  }

  // ---------------------------------------------------------------- the code

  method Strlen(buf: array<byte>, at: nat, ghost end: nat) returns (n: nat)
    requires at <= end < buf.Length && buf[end] == NUL
    requires forall k :: at <= k < end ==> buf[k] != NUL
    ensures n == end - at
  {
    n := 0;
    while buf[at + n] != NUL
      invariant at + n <= end
      decreases end - at - n
    {
      n := n + 1;
    }
  }

  /** The swap loop of strrev on the string of length n at `at`. */
  method Swap(buf: array<byte>, at: nat, n: nat)
    requires at + n <= buf.Length
    modifies buf
    ensures forall k :: at <= k < at + n ==> buf[k] == old(buf[at + at + n - 1 - k])
    ensures forall k :: 0 <= k < buf.Length && !(at <= k < at + n) ==> buf[k] == old(buf[k])
  {
    var beg, end := 0, n - 1;
    while beg < end
      invariant 0 <= beg && end == n - 1 - beg && beg <= end + 2
      invariant forall k :: at + beg <= k <= at + end ==> buf[k] == old(buf[k])
      invariant forall k :: at <= k < at + n && !(at + beg <= k <= at + end) ==> buf[k] == old(buf[at + at + n - 1 - k])
      invariant forall k :: 0 <= k < buf.Length && !(at <= k < at + n) ==> buf[k] == old(buf[k])
    {
      buf[at + end], buf[at + beg] := buf[at + beg], buf[at + end];
      beg := beg + 1;
      end := end - 1;
    }
  }

  /** The digit loop: least significant digit first. */
  method WriteDigits(value: nat, buf: array<byte>, at: nat, radix: int) returns (n: nat)
    requires 2 <= radix <= 36 && 0 < value && at + |Digits(value, radix)| < buf.Length
    modifies buf
    ensures n == |Digits(value, radix)| && buf[at + n] == NUL
    ensures forall k :: at <= k < at + n ==> buf[k] == Digits(value, radix)[at + n - 1 - k]
    ensures forall k :: 0 <= k < buf.Length && !(at <= k <= at + n) ==> buf[k] == old(buf[k])
  {
    hide Lookup;
    ghost var text := Digits(value, radix);
    var newval := value;
    n := 0;
    assert text[..|text|] == text;
    while newval > 0
      invariant 0 <= newval && n <= |text|
      invariant Digits(newval, radix) == text[..|text| - n]
      invariant forall k :: at <= k < at + n ==> buf[k] == text[|text| - 1 - (k - at)]
      invariant forall k :: 0 <= k < buf.Length && !(at <= k < at + n) ==> buf[k] == old(buf[k])
      decreases newval
    {
      Quotient(newval, radix);
      ghost var shorter := Digits(newval / radix, radix);
      assert text[..|text| - n] == shorter + [Lookup(newval % radix)];
      assert text[..|text| - n][..|shorter|] == text[..|shorter|];
      var i := newval % radix;
      buf[at + n] := Lookup(i);
      n := n + 1;
      newval := newval / radix;
    }
    buf[at + n] := NUL;
  }

  /** `text` stands at `at`, followed by its NUL. */
  ghost predicate Holds(buf: seq<byte>, at: nat, text: seq<byte>) {
    && at + |text| < |buf| && buf[at + |text|] == NUL
    && forall k :: at <= k < at + |text| ==> buf[k] == text[k - at]
  }

  /** itoa: the text of `value` at `at`, NUL-terminated, nothing else touched. */
  method Itoa(value: nat, buf: array<byte>, at: nat, radix: int) returns (n: nat)
    requires 2 <= radix <= 36 && at + |Text(value, radix)| < buf.Length
    modifies buf
    ensures n == |Text(value, radix)| && Holds(buf[..], at, Text(value, radix))
    ensures forall k :: 0 <= k < buf.Length && !(at <= k <= at + n) ==> buf[k] == old(buf[k])
  {
    hide Digits;
    if value == 0 {
      buf[at] := ZERO;
      buf[at + 1] := NUL;
      n := 1;
    } else {
      n := WriteDigits(value, buf, at, radix);
      ghost var text := Digits(value, radix);
      DigitsValue(value, radix);
      assert forall k :: 0 <= k < |text| ==> text[k] != NUL;
      var len := Strlen(buf, at, at + n);
      Swap(buf, at, len);
    }
  }

  /** The user-space copy, whose reversal returns early on strings of length 0 and 1. */
  method UserItoa(value: nat, buf: array<byte>, radix: int) returns (n: nat)
    requires 2 <= radix <= 36 && |Text(value, radix)| < buf.Length
    modifies buf
    ensures n == |Text(value, radix)| && Holds(buf[..], 0, Text(value, radix))
    ensures forall k :: n < k < buf.Length ==> buf[k] == old(buf[k])
  {
    hide Digits;
    if value == 0 {
      buf[0] := ZERO;
      buf[1] := NUL;
      n := 1;
    } else {
      n := WriteDigits(value, buf, 0, radix);
      ghost var text := Digits(value, radix);
      DigitsValue(value, radix);
      assert forall k :: 0 <= k < |text| ==> text[k] != NUL;
      var len := Strlen(buf, 0, n);
      if len - 1 > 0 {
        Swap(buf, 0, len);
      }
    }
  }

  /** %#x: the digits go to the middle of the buffer, zeros fill the gap before them, and printing
      starts as far in as the digits are long. */
  method PrintHexPadded(value: nat) returns (printed: seq<byte>)
    requires value < UINT32
    ensures |printed| == 8 && AllDigits(printed, 16)
    ensures ValueOf(printed, 16) == value
  {
    hide Text, ValueOf, DigitOf;
    ghost var text := Text(value, 16);
    TextFits(value, 16);
    TextValue(value, 16);
    var conv := new byte[64](_ => NUL);
    var n := Itoa(value, conv, 8, 16);
    var i := n;
    while i < 8
      invariant n <= i <= 8
      invariant forall k :: n <= k < i ==> conv[k] == ZERO
      invariant Holds(conv[..], 8, text)
    {
      conv[i] := ZERO;
      i := i + 1;
    }
    printed := conv[n..8 + n];
    ghost var zeros := conv[n..8];
    assert printed == zeros + text;
    LeadingZeros(text, zeros, 16);
    assert DigitOf(ZERO) == 0 by { ZeroDigit(); }
  }

  lemma ZeroDigit()
    ensures DigitOf(ZERO) == 0
  {
  }

  /** %d: a minus sign and the magnitude; the negation is taken modulo 2^32. */
  method PrintSigned(value: int) returns (printed: seq<byte>)
    requires -0x8000_0000 <= value < 0x8000_0000
    ensures printed == if value < 0 then [MINUS] + Text(-value, 10) else Text(value, 10)
  {
    hide Text;
    var conv := new byte[36](_ => NUL);
    var n;
    if value < 0 {
      var magnitude := (-value) % UINT32;
      TextFits(magnitude, 10);
      conv[0] := MINUS;
      n := Itoa(magnitude, conv, 1, 10);
      printed := conv[..1 + n];
      assert conv[0] == MINUS;
    } else {
      TextFits(value, 10);
      n := Itoa(value, conv, 0, 10);
      printed := conv[..n];
    }
  }
}
