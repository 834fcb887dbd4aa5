/**
 * MongoDB object ids and their string form. An ObjectId is modelled by its
 * numeric value (its twelve bytes read as one big-endian number);
 * `ObjectId.prototype.toString()` writes it in lower-case hexadecimal,
 * zero-padded to 24 digits.
 */
module ObjectIds {
  type ObjectId = nat

  const HexWidth: nat := 24

  predicate IsHexDigit(c: char)
  {
    '0' <= c <= '9' || 'a' <= c <= 'f'
  }

  function HexDigit(d: nat): (c: char)
    requires d < 16
    ensures IsHexDigit(c)
  {
    if d < 10 then (d + '0' as int) as char else (d - 10 + 'a' as int) as char
  }

  function DigitValue(c: char): (d: nat)
    ensures IsHexDigit(c) ==> d < 16
  {
    if '0' <= c <= '9' then c as int - '0' as int
    else if 'a' <= c <= 'f' then c as int - 'a' as int + 10
    else 0
  }

  /** The shortest hexadecimal numeral of `n`, most significant digit first. */
  function Hex(n: nat): (s: string)
    ensures |s| > 0
    ensures forall c :: c in s ==> IsHexDigit(c)
    decreases n
  {
    if n < 16 then [HexDigit(n)] else Hex(n / 16) + [HexDigit(n % 16)]
  }

  /** The number a hexadecimal numeral denotes (the decoding direction). */
  function HexValue(s: string): nat
  {
    if s == [] then 0 else HexValue(s[..|s| - 1]) * 16 + DigitValue(s[|s| - 1])
  }

  function Zeros(k: nat): (s: string)
    ensures |s| == k && forall c :: c in s ==> c == '0'
  {
    seq(k, _ => '0')
  }

  lemma {:induction false} HexRoundTrip(n: nat)
    ensures HexValue(Hex(n)) == n
    decreases n
  {
    if n >= 16 {
      var s := Hex(n);
      assert s[..|s| - 1] == Hex(n / 16);
      HexRoundTrip(n / 16);
    }
  }

  /** Leading zeros do not change the value of a numeral. */
  lemma {:induction false} LeadingZeros(k: nat, s: string)
    ensures HexValue(Zeros(k) + s) == HexValue(s)
    decreases |s|, k
  {
    if s == [] {
      assert Zeros(k) + s == Zeros(k);
      if k > 0 {
        assert Zeros(k)[..k - 1] == Zeros(k - 1) + [];
        LeadingZeros(k - 1, []);
      }
    } else {
      var t := Zeros(k) + s;
      assert t[..|t| - 1] == Zeros(k) + s[..|s| - 1];
      LeadingZeros(k, s[..|s| - 1]);
    }
  }

  /** `ObjectId.prototype.toString()`: it decodes back to the id, so distinct ids have distinct strings. */
  function ToHexString(id: ObjectId): (s: string)
    ensures |s| >= HexWidth
    ensures |Hex(id)| <= HexWidth ==> |s| == HexWidth
    ensures forall c :: c in s ==> IsHexDigit(c)
    ensures HexValue(s) == id
  {
    var h := Hex(id);
    HexRoundTrip(id);
    var pad := if |h| < HexWidth then HexWidth - |h| else 0;
    LeadingZeros(pad, h);
    Zeros(pad) + h
  }

  /** Comparing the string forms of two ids is comparing the ids. */
  lemma ToHexStringInjective(a: ObjectId, b: ObjectId)
    ensures ToHexString(a) == ToHexString(b) <==> a == b
  {
  }
}
