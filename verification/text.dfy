/** The few string primitives of the ECMAScript standard library that the
    application relies on: `String.prototype.trim`, `toLowerCase`,
    `padStart`, `parseInt(_, 10)` on digit strings and `String(n)` on
    natural numbers. Dafny `char`s are Unicode scalar values, while
    JavaScript strings are sequences of UTF-16 code units; the model does
    not distinguish the two. */
module Text {

  /** WhiteSpace and LineTerminator code points of ECMAScript (section
      12.2 and 12.3 of ECMA-262): exactly what `trim` removes. */
  predicate IsWhitespace(c: char) {
    || c == '\t' || c == '\n' || c == '\U{000B}' || c == '\U{000C}' || c == '\r'
    || c == ' ' || c == '\U{00A0}' || c == '\U{1680}'
    || ('\U{2000}' <= c <= '\U{200A}')
    || c == '\U{2028}' || c == '\U{2029}' || c == '\U{202F}' || c == '\U{205F}'
    || c == '\U{3000}' || c == '\U{FEFF}'
  }

  /** No whitespace at either end. */
  predicate Trimmed(s: string) {
    s == [] || (!IsWhitespace(s[0]) && !IsWhitespace(s[|s| - 1]))
  }

  predicate AllWhitespace(s: string) {
    forall i :: 0 <= i < |s| ==> IsWhitespace(s[i])
  }

  function TrimStart(s: string): (r: string)
    ensures |r| <= |s| && r == s[|s| - |r|..]
    ensures r == [] || !IsWhitespace(r[0])
    ensures AllWhitespace(s[..|s| - |r|])
  {
    if s != [] && IsWhitespace(s[0]) then TrimStart(s[1..]) else s
  }

  function TrimEnd(s: string): (r: string)
    ensures |r| <= |s| && r == s[..|r|]
    ensures r == [] || !IsWhitespace(r[|r| - 1])
    ensures AllWhitespace(s[|r|..])
  {
    if s != [] && IsWhitespace(s[|s| - 1]) then TrimEnd(s[..|s| - 1]) else s
  }

  /** `r` sits in `s` at offset `a` with only whitespace around it. */
  predicate SurroundedBy(s: string, a: int, r: string) {
    0 <= a && a + |r| <= |s| && r == s[a..a + |r|]
    && AllWhitespace(s[..a]) && AllWhitespace(s[a + |r|..])
  }

  /** `s.trim()`: the input with the whitespace at both ends cut off. */
  function Trim(s: string): (r: string)
    ensures |r| <= |s| && Trimmed(r)
    ensures exists a :: SurroundedBy(s, a, r)
    ensures Trimmed(s) ==> r == s
    ensures r == [] <==> AllWhitespace(s)
  {
    var t := TrimStart(s);
    var r := TrimEnd(t);
    var a := |s| - |t|;
    assert SurroundedBy(s, a, r) by {
      assert s[a..] == t;
      assert s[a..a + |r|] == t[..|r|];
      assert s[a + |r|..] == t[|r|..];
    }
    assert r == [] ==> AllWhitespace(s) by {
      if r == [] {
        assert s == s[..|s| - |t|] + t;
        assert t == t[..|r|] + t[|r|..];
      }
    }
    r
  }

  lemma TrimIdempotent(s: string)
    ensures Trim(Trim(s)) == Trim(s)
  {
  }

  function LowerChar(c: char): char {
    if 'A' <= c <= 'Z' then (c as int + 32) as char else c
  }

  /** `s.toLowerCase()` restricted to the ASCII letters. */
  function ToLower(s: string): string {
    seq(|s|, i requires 0 <= i < |s| => LowerChar(s[i]))
  }

  predicate IsDigit(c: char) {
    '0' <= c <= '9'
  }

  /** The regular expression `^\d{n}$` with n == |s|. */
  predicate AllDigits(s: string) {
    forall i :: 0 <= i < |s| ==> IsDigit(s[i])
  }

  /** The value of a decimal digit; other characters count as 0, and the
      model only ever reads strings it has checked to be all digits. */
  function DigitValue(c: char): nat {
    if IsDigit(c) then c as int - '0' as int else 0
  }

  function DigitChar(d: nat): (c: char)
    requires d < 10
    ensures IsDigit(c) && DigitValue(c) == d
  {
    ('0' as int + d) as char
  }

  /** `parseInt(s, 10)` for a string of decimal digits. */
  function DigitsValue(s: string): nat {
    if s == [] then 0 else DigitsValue(s[..|s| - 1]) * 10 + DigitValue(s[|s| - 1])
  }

  /** `String(n)` for a natural number n. */
  function NatToDecimal(n: nat): (r: string)
    ensures AllDigits(r) && DigitsValue(r) == n
    ensures 1 <= |r| && (r[0] == '0' ==> n == 0)
    ensures n < 10 <==> |r| == 1
    ensures n < 100 ==> |r| <= 2
  {
    if n < 10 then [DigitChar(n)]
    else
      var r := NatToDecimal(n / 10) + [DigitChar(n % 10)];
      assert r[..|r| - 1] == NatToDecimal(n / 10);
      r
  }

  function Repeat(c: char, k: nat): (r: string)
    ensures |r| == k && forall i :: 0 <= i < k ==> r[i] == c
  {
    if k == 0 then [] else [c] + Repeat(c, k - 1)
  }

  /** `s.padStart(width, fill)`. */
  function PadStart(s: string, width: nat, fill: char): (r: string)
    ensures |r| == if |s| >= width then |s| else width
    ensures r[|r| - |s|..] == s
    ensures forall i :: 0 <= i < |r| - |s| ==> r[i] == fill
  {
    if |s| >= width then s else Repeat(fill, width - |s|) + s
  }

  /** Leading zeros do not change the value `parseInt` reads. */
  lemma {:induction false} LeadingZerosValue(k: nat, s: string)
    requires AllDigits(s)
    ensures AllDigits(Repeat('0', k) + s)
    ensures DigitsValue(Repeat('0', k) + s) == DigitsValue(s)
  {
    var z := Repeat('0', k);
    if s == [] {
      assert z + s == z;
      ZerosValue(k);
    } else {
      var p := s[..|s| - 1];
      assert (z + s)[..|z + s| - 1] == z + p;
      LeadingZerosValue(k, p);
    }
  }

  lemma {:induction false} ZerosValue(k: nat)
    ensures AllDigits(Repeat('0', k)) && DigitsValue(Repeat('0', k)) == 0
  {
    if k > 0 {
      var z := Repeat('0', k);
      assert z[..k - 1] == Repeat('0', k - 1);
      ZerosValue(k - 1);
    }
  }

  /** Zero-padding a decimal and reading it back gives the number again. */
  lemma {:induction false} PaddedDecimalValue(n: nat, width: nat)
    ensures AllDigits(PadStart(NatToDecimal(n), width, '0'))
    ensures DigitsValue(PadStart(NatToDecimal(n), width, '0')) == n
  {
    var d := NatToDecimal(n);
    var p := PadStart(d, width, '0');
    if |d| < width {
      assert p == Repeat('0', width - |d|) + d;
      LeadingZerosValue(width - |d|, d);
    } else {
      assert p == d;
    }
  }

  function Pow10(k: nat): (r: nat)
    ensures r >= 1
  {
    if k == 0 then 1 else 10 * Pow10(k - 1)
  }

  /** A number below 10^k is written with at most k decimal digits. */
  lemma {:induction false} DecimalLength(n: nat, k: nat)
    requires 1 <= k && n < Pow10(k)
    ensures |NatToDecimal(n)| <= k
  {
    if n >= 10 {
      assert Pow10(1) == 10;
      assert n / 10 < Pow10(k - 1);
      DecimalLength(n / 10, k - 1);
    }
  }

  /** `String(n).padStart(k, '0')` for n below 10^k has exactly k digits
      and reads back as n. */
  lemma FixedWidthDecimal(n: nat, k: nat)
    requires 1 <= k && n < Pow10(k)
    ensures |PadStart(NatToDecimal(n), k, '0')| == k
    ensures AllDigits(PadStart(NatToDecimal(n), k, '0'))
    ensures DigitsValue(PadStart(NatToDecimal(n), k, '0')) == n
  {
    DecimalLength(n, k);
    PaddedDecimalValue(n, k);
  }

  /** Digit strings have nothing for `trim` to remove. */
  lemma DigitsTrimmed(s: string)
    requires AllDigits(s)
    ensures Trimmed(s) && Trim(s) == s
  {
    if s != [] {
      assert IsDigit(s[0]) && IsDigit(s[|s| - 1]);
    }
  }

  lemma DigitsConcat(a: string, b: string)
    requires AllDigits(a) && AllDigits(b)
    ensures AllDigits(a + b)
  {
  }

  /** Lower-casing touches only the letters A to Z, none of which is
      whitespace. */
  lemma LowerKeepsWhitespace(c: char)
    ensures IsWhitespace(LowerChar(c)) <==> IsWhitespace(c)
  {
  }

  lemma LowerTrimmed(s: string)
    ensures Trimmed(ToLower(s)) <==> Trimmed(s)
  {
    if s != [] {
      LowerKeepsWhitespace(s[0]);
      LowerKeepsWhitespace(s[|s| - 1]);
    }
  }

  lemma {:induction false} TrimStartLower(s: string)
    ensures TrimStart(ToLower(s)) == ToLower(TrimStart(s))
  {
    if s != [] {
      LowerKeepsWhitespace(s[0]);
      assert ToLower(s)[1..] == ToLower(s[1..]);
      TrimStartLower(s[1..]);
    }
  }

  lemma {:induction false} TrimEndLower(s: string)
    ensures TrimEnd(ToLower(s)) == ToLower(TrimEnd(s))
  {
    if s != [] {
      LowerKeepsWhitespace(s[|s| - 1]);
      assert ToLower(s)[..|s| - 1] == ToLower(s[..|s| - 1]);
      TrimEndLower(s[..|s| - 1]);
    }
  }

  /** `s.toLowerCase().trim()` and `s.trim().toLowerCase()` agree. */
  lemma TrimLower(s: string)
    ensures Trim(ToLower(s)) == ToLower(Trim(s))
  {
    TrimStartLower(s);
    TrimEndLower(TrimStart(s));
  }

  lemma LowerIdempotent(s: string)
    ensures ToLower(ToLower(s)) == ToLower(s)
  {
  }
}
