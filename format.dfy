/** The two integer renderings of the wire format: `%016llx` (ids) and `%llu` (times). */
module Format {
  import opened Types

  function Pow16(k: nat): (p: nat)
    ensures p >= 1
  {
    if k == 0 then 1 else 16 * Pow16(k - 1)
  }

  predicate IsLowerHex(c: char) {
    ('0' <= c <= '9') || ('a' <= c <= 'f')
  }

  predicate IsDecimalDigit(c: char) {
    '0' <= c <= '9'
  }

  /** The lower-case hex digit for 0 <= d < 16. */
  function HexDigit(d: nat): (c: char)
    requires d < 16
    ensures IsLowerHex(c)
  {
    if d < 10 then ('0' as int + d) as char else ('a' as int + d - 10) as char
  }

  /** The value of a hex digit; the inverse of HexDigit. */
  function HexDigitValue(c: char): nat {
    if '0' <= c <= '9' then c as int - '0' as int
    else if 'a' <= c <= 'f' then c as int - 'a' as int + 10
    else 0
  }

  /** The k low hex digits of v, most significant first, zero padded. */
  function HexDigits(v: nat, k: nat): (s: string)
    ensures |s| == k
    ensures forall i :: 0 <= i < |s| ==> IsLowerHex(s[i])
  {
    if k == 0 then [] else HexDigits(v / 16, k - 1) + [HexDigit(v % 16)]
  }

  /** `%016llx` of a 64-bit value. */
  function Hex16(v: u64): (s: string)
    ensures |s| == 16
    ensures forall i :: 0 <= i < |s| ==> IsLowerHex(s[i])
  {
    HexDigits(v, 16)
  }

  /** The number a string of hex digits denotes, most significant first. */
  function HexValue(s: string): nat {
    if |s| == 0 then 0 else HexValue(s[..|s| - 1]) * 16 + HexDigitValue(s[|s| - 1])
  }

  lemma {:induction false} HexDigitsRoundTrip(v: nat, k: nat)
    requires v < Pow16(k)
    ensures HexValue(HexDigits(v, k)) == v
  {
    if k > 0 {
      var s := HexDigits(v, k);
      assert s[..|s| - 1] == HexDigits(v / 16, k - 1);
      HexDigitsRoundTrip(v / 16, k - 1);
    }
  }

  lemma Pow16Is64Bit()
    ensures Pow16(16) == TWO_TO_THE_64
  {
    assert Pow16(8) == 0x1_0000_0000;
  }

  /** Decoding the sixteen digits of `%016llx` gives the value back, so distinct ids render
      distinctly. */
  lemma Hex16RoundTrip(v: u64)
    ensures HexValue(Hex16(v)) == v
  {
    Pow16Is64Bit();
    HexDigitsRoundTrip(v, 16);
  }

  lemma Hex16Injective(a: u64, b: u64)
    requires Hex16(a) == Hex16(b)
    ensures a == b
  {
    Hex16RoundTrip(a);
    Hex16RoundTrip(b);
  }

  function DecimalDigit(d: nat): (c: char)
    requires d < 10
    ensures IsDecimalDigit(c)
  {
    ('0' as int + d) as char
  }

  /** `%llu`: decimal digits without padding; "0" for zero. */
  function Decimal(v: nat): (s: string)
    ensures |s| >= 1
    ensures forall i :: 0 <= i < |s| ==> IsDecimalDigit(s[i])
    ensures s[0] == '0' ==> v == 0
  {
    if v < 10 then [DecimalDigit(v)] else Decimal(v / 10) + [DecimalDigit(v % 10)]
  }

  function DecimalDigitValue(c: char): nat {
    if '0' <= c <= '9' then c as int - '0' as int else 0
  }

  /** The number a string of decimal digits denotes. */
  function DecimalValue(s: string): nat {
    if |s| == 0 then 0 else DecimalValue(s[..|s| - 1]) * 10 + DecimalDigitValue(s[|s| - 1])
  }

  lemma {:induction false} DecimalRoundTrip(v: nat)
    ensures DecimalValue(Decimal(v)) == v
  {
    if v >= 10 {
      var s := Decimal(v);
      assert s[..|s| - 1] == Decimal(v / 10);
      DecimalRoundTrip(v / 10);
    }
  }
}
