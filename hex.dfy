/**
 * Hex strings as the User model stores its password salt and verifier, and the
 * unsigned integers `password_salt.hex` and `password_verifier.hex` turn them into.
 */
module Hex {
  import opened Chars

  /** The class `[\dA-Fa-f]`. */
  predicate IsHexDigit(c: char) { IsDigit(c) || 'a' <= c <= 'f' || 'A' <= c <= 'F' }

  predicate AllHex(s: string) { forall i :: 0 <= i < |s| ==> IsHexDigit(s[i]) }

  /** The format rule `\A[\dA-Fa-f]+\z`. */
  predicate IsHexString(s: string) { |s| > 0 && AllHex(s) }

  /** The lower-case digit for a value below 16. */
  function DigitChar(d: nat): (c: char)
    requires d < 16
    ensures IsHexDigit(c) && !IsUpper(c)
  {
    if d < 10 then ('0' as int + d) as char else ('a' as int + d - 10) as char
  }

  function DigitValue(c: char): (d: nat)
    requires IsHexDigit(c)
    ensures d < 16
    ensures DigitChar(d) == ToLower(c)
  {
    if IsDigit(c) then c as int - '0' as int
    else if 'a' <= c <= 'f' then c as int - 'a' as int + 10
    else c as int - 'A' as int + 10
  }

  lemma DigitValueOfChar(d: nat)
    requires d < 16
    ensures DigitValue(DigitChar(d)) == d
  {
  }

  /** Two digits that differ only in case have the same value, and only those. */
  lemma DigitCaseInsensitive(c: char, e: char)
    requires IsHexDigit(c) && IsHexDigit(e)
    ensures DigitValue(c) == DigitValue(e) <==> ToLower(c) == ToLower(e)
  {
  }

  function Pow16(k: nat): (p: nat)
    ensures p >= 1
  {
    if k == 0 then 1 else 16 * Pow16(k - 1)
  }

  lemma PlaceBound(d: nat, p: nat, rest: nat, next: nat)
    requires d < 16 && rest < p && next == 16 * p
    ensures 0 <= d * p + rest < next
  {
    assert d * p + p == (d + 1) * p;
    assert (d + 1) * p <= 16 * p;
  }

  lemma {:induction false} Pow16Monotone(a: nat, b: nat)
    requires a <= b
    ensures Pow16(a) <= Pow16(b)
    decreases b
  {
    if a < b { Pow16Monotone(a, b - 1); }
  }

  /** The base-16 value of a string of hex digits, most significant digit first. */
  function Value(s: string): (v: nat)
    requires AllHex(s)
    ensures v < Pow16(|s|)
  {
    if s == [] then 0
    else
      var d, p, rest := DigitValue(s[0]), Pow16(|s| - 1), Value(s[1..]);
      PlaceBound(d, p, rest, Pow16(|s|));
      d * p + rest
  }

  /** The longest leading run of hex digits. */
  function HexPrefix(s: string): (p: string)
    ensures AllHex(p) && p <= s
    ensures |p| < |s| ==> !IsHexDigit(s[|p|])
  {
    if s != [] && IsHexDigit(s[0]) then [s[0]] + HexPrefix(s[1..]) else []
  }

  lemma {:induction false} HexPrefixOfHex(s: string)
    ensures AllHex(s) ==> HexPrefix(s) == s
  {
    if s != [] && AllHex(s) {
      HexPrefixOfHex(s[1..]);
    }
  }

  /**
   * Ruby's `String#hex` on the strings this model considers: it reads hex digits
   * from the start and stops at the first character that is not one (0 if none).
   */
  function StringHex(s: string): (n: nat)
    ensures AllHex(s) ==> n == Value(s)
    ensures n < Pow16(|s|)
  {
    HexPrefixOfHex(s);
    Pow16Monotone(|HexPrefix(s)|, |s|);
    Value(HexPrefix(s))
  }

  /** Appending a digit shifts the value one place: decode(s + [c]) == decode(s) * 16 + digit. */
  lemma {:induction false} ValueAppend(s: string, c: char)
    requires AllHex(s) && IsHexDigit(c)
    ensures AllHex(s + [c]) && Value(s + [c]) == Value(s) * 16 + DigitValue(c)
  {
    var t := s + [c];
    if s == [] {
      assert t[1..] == [];
    } else {
      assert t[1..] == s[1..] + [c];
      ValueAppend(s[1..], c);
      var d, p := DigitValue(s[0]), Pow16(|s| - 1);
      assert Value(t) == d * Pow16(|s|) + Value(s[1..] + [c]);
      assert Pow16(|s|) == 16 * p;
      ShiftPlace(d, p, Value(s[1..]), DigitValue(c));
    }
  }

  lemma ShiftPlace(d: nat, p: nat, rest: nat, e: nat)
    ensures d * (16 * p) + (rest * 16 + e) == (d * p + rest) * 16 + e
  {
    assert d * (16 * p) == (d * p) * 16;
  }

  /** Decoding is case-insensitive: strings equal up to case have the same value. */
  lemma {:induction false} ValueIgnoresCase(s: string, t: string)
    requires AllHex(s) && AllHex(t) && Lower(s) == Lower(t)
    ensures Value(s) == Value(t)
  {
    assert |s| == |Lower(s)| == |Lower(t)| == |t|;
    if s != [] {
      assert ToLower(s[0]) == Lower(s)[0] == Lower(t)[0] == ToLower(t[0]);
      DigitCaseInsensitive(s[0], t[0]);
      assert Lower(s[1..]) == Lower(s)[1..] == Lower(t)[1..] == Lower(t[1..]);
      ValueIgnoresCase(s[1..], t[1..]);
    }
  }

  /** In particular lower-casing a stored hex string does not change the number it stands for. */
  lemma ValueOfLower(s: string)
    requires AllHex(s)
    ensures AllHex(Lower(s)) && Value(Lower(s)) == Value(s)
  {
    assert Lower(Lower(s)) == Lower(s);
    ValueIgnoresCase(Lower(s), s);
  }

  /** The reference encoder: lower-case digits, no leading zeros, "0" for zero. */
  function Encode(n: nat): (s: string)
    ensures |s| > 0 && AllHex(s)
  {
    if n < 16 then [DigitChar(n)] else Encode(n / 16) + [DigitChar(n % 16)]
  }

  /** Encoding and then decoding gives the number back. */
  lemma {:induction false} DecodeEncode(n: nat)
    ensures Value(Encode(n)) == n
  {
    if n < 16 {
      assert Encode(n)[1..] == [];
      DigitValueOfChar(n);
    } else {
      DecodeEncode(n / 16);
      ValueAppend(Encode(n / 16), DigitChar(n % 16));
      DigitValueOfChar(n % 16);
    }
  }

  /** A hex string without redundant leading zeros. */
  predicate IsCanonical(s: string)
  {
    IsHexString(s) && (s[0] == '0' ==> |s| == 1)
  }

  /** Drops leading zeros, keeping a single "0" for a string of zeros. */
  function StripLeadingZeros(s: string): (r: string)
    requires IsHexString(s)
    ensures IsCanonical(r) && |r| <= |s| && r == s[|s| - |r|..]
  {
    if |s| > 1 && s[0] == '0' then StripLeadingZeros(s[1..]) else s
  }

  /** What is dropped is zeros only, so the value is the same. */
  lemma {:induction false} StripLeadingZerosValue(s: string)
    requires IsHexString(s)
    ensures forall i :: 0 <= i < |s| - |StripLeadingZeros(s)| ==> s[i] == '0'
    ensures Value(StripLeadingZeros(s)) == Value(s)
  {
    if |s| > 1 && s[0] == '0' {
      StripLeadingZerosValue(s[1..]);
      assert Value(s) == 0 * Pow16(|s| - 1) + Value(s[1..]);
      forall i | 0 < i < |s| - |StripLeadingZeros(s)| ensures s[i] == '0' {
        assert s[i] == s[1..][i - 1];
      }
    }
  }

  lemma LeadingNonZero(s: string)
    requires IsHexString(s) && s[0] != '0'
    ensures Value(s) >= Pow16(|s| - 1)
  {
    var d, p := DigitValue(s[0]), Pow16(|s| - 1);
    assert d >= 1;
    assert Value(s) == d * p + Value(s[1..]);
    AtLeastOnce(d, p);
  }

  lemma AtLeastOnce(d: nat, p: nat)
    requires d >= 1
    ensures d * p >= p
  {
    assert d * p == (d - 1) * p + p;
  }

  lemma DivMod16(q: nat, d: nat)
    requires d < 16
    ensures (q * 16 + d) / 16 == q && (q * 16 + d) % 16 == d
  {
  }

  /** The encoder writes the digits of q, then the last digit d. */
  lemma EncodeStep(q: nat, d: nat)
    requires q >= 1 && d < 16
    ensures Encode(q * 16 + d) == Encode(q) + [DigitChar(d)]
  {
    DivMod16(q, d);
  }

  lemma LowerSnoc(p: string, c: char)
    ensures Lower(p + [c]) == Lower(p) + [ToLower(c)]
  {
  }

  /** A canonical hex string is what the encoder writes for its value, up to case. */
  lemma {:induction false} EncodeOfCanonical(s: string)
    requires IsCanonical(s)
    ensures Encode(Value(s)) == Lower(s)
    decreases |s|
  {
    if |s| == 1 {
      assert s[1..] == [];
      assert Value(s) == DigitValue(s[0]);
      assert Encode(Value(s)) == [DigitChar(DigitValue(s[0]))];
      assert Lower(s) == [ToLower(s[0])];
    } else {
      var p, c := s[..|s| - 1], s[|s| - 1];
      assert s == p + [c];
      assert p[0] == s[0];
      LeadingNonZero(p);
      EncodeOfCanonical(p);
      ValueAppend(p, c);
      EncodeStep(Value(p), DigitValue(c));
      assert Encode(Value(s)) == Lower(p) + [DigitChar(DigitValue(c))];
      LowerSnoc(p, c);
    }
  }

  /**
   * Round trip from the stored side: re-encoding the decoded salt or verifier gives
   * the stored string back up to leading zeros and case.
   */
  lemma EncodeDecode(s: string)
    requires IsHexString(s)
    ensures Encode(Value(s)) == Lower(StripLeadingZeros(s))
  {
    StripLeadingZerosValue(s);
    EncodeOfCanonical(StripLeadingZeros(s));
  }
}
