/**
 * The base-36 numeral codec behind short-link tokens: `Integer#to_s(36)`
 * turns a row id into a token and `String#to_i(36)` turns a token back
 * into an id (turl.rb:44, 50, 57, 63).
 */
module Base36 {

  /** The id whose token is the controller name `index` (turl.rb:51-52). */
  const INDEX_ID: nat := 31323561

  /** A character `to_i(36)` accepts as a digit; letters in either case. */
  predicate IsDigit(c: char) {
    '0' <= c <= '9' || 'a' <= c <= 'z' || 'A' <= c <= 'Z'
  }

  /** A character `to_s(36)` may produce: 0-9 and lower-case a-z. */
  predicate IsLowerDigit(c: char) {
    '0' <= c <= '9' || 'a' <= c <= 'z'
  }

  predicate AllDigits(s: string) {
    forall i :: 0 <= i < |s| ==> IsDigit(s[i])
  }

  function DigitValue(c: char): (d: nat)
    requires IsDigit(c)
    ensures d < 36
    ensures IsLowerDigit(c) ==> (d < 10 <==> '0' <= c <= '9')
  {
    if c <= '9' then c as int - '0' as int
    else if 'a' <= c then c as int - 'a' as int + 10
    else c as int - 'A' as int + 10
  }

  function DigitChar(d: nat): (c: char)
    requires d < 36
    ensures IsLowerDigit(c) && IsDigit(c)
    ensures DigitValue(c) == d
  {
    if d < 10 then ('0' as int + d) as char else ('a' as int + d - 10) as char
  }

  /** `n.to_s(36)`: the shortest base-36 numeral for n, most significant digit first. */
  function Encode(n: nat): (s: string)
    ensures |s| >= 1
    ensures forall i :: 0 <= i < |s| ==> IsLowerDigit(s[i])
    ensures s[0] == '0' <==> n == 0
  {
    if n < 36 then [DigitChar(n)] else Encode(n / 36) + [DigitChar(n % 36)]
  }

  /** The longest leading run of base-36 digits of s. */
  function LeadingDigits(s: string): (p: string)
    ensures p <= s
    ensures AllDigits(p)
    ensures |p| < |s| ==> !IsDigit(s[|p|])
  {
    if s == [] || !IsDigit(s[0]) then [] else [s[0]] + LeadingDigits(s[1..])
  }

  /** The positional value of a run of base-36 digits. */
  function ValueOf(ds: string): nat
    requires AllDigits(ds)
  {
    if ds == [] then 0 else ValueOf(ds[..|ds| - 1]) * 36 + DigitValue(ds[|ds| - 1])
  }

  /** `s.to_i(36)`: the value of the leading digits, 0 when there are none. */
  function Decode(s: string): (n: nat)
    ensures s == [] || !IsDigit(s[0]) ==> n == 0
  {
    ValueOf(LeadingDigits(s))
  }

  /** What `to_s(36)` produces for a positive id: lower-case digits, no leading zero. */
  predicate IsCanonical(s: string) {
    && |s| >= 1
    && (forall i :: 0 <= i < |s| ==> IsLowerDigit(s[i]))
    && s[0] != '0'
  }

  lemma {:induction false} LeadingDigitsStopAt(s: string, rest: string)
    requires AllDigits(s)
    requires rest == [] || !IsDigit(rest[0])
    ensures LeadingDigits(s + rest) == s
  {
    if s != [] {
      assert (s + rest)[1..] == s[1..] + rest;
      LeadingDigitsStopAt(s[1..], rest);
    } else {
      assert s + rest == rest;
    }
  }

  lemma {:induction false} ValueOfEncode(n: nat)
    ensures AllDigits(Encode(n)) && ValueOf(Encode(n)) == n
  {
    if n >= 36 {
      var s := Encode(n);
      assert s[..|s| - 1] == Encode(n / 36);
      ValueOfEncode(n / 36);
    }
  }

  /** Decoding the token of an id gives the id back. */
  lemma DecodeEncode(n: nat)
    ensures Decode(Encode(n)) == n
  {
    DecodeReadsLeadingDigits(n, []);
    assert Encode(n) + [] == Encode(n);
  }

  /**
   * Decoding reads only the leading digits: a token followed by anything
   * that does not start with a digit still decodes to its id.
   */
  lemma DecodeReadsLeadingDigits(n: nat, rest: string)
    requires rest == [] || !IsDigit(rest[0])
    ensures Decode(Encode(n) + rest) == n
  {
    ValueOfEncode(n);
    LeadingDigitsStopAt(Encode(n), rest);
  }

  /** Distinct ids get distinct tokens. */
  lemma EncodeInjective(a: nat, b: nat)
    ensures Encode(a) == Encode(b) ==> a == b
  {
    DecodeEncode(a);
    DecodeEncode(b);
  }

  lemma {:induction false} ValueOfPositive(s: string)
    requires |s| >= 1 && AllDigits(s) && DigitValue(s[0]) >= 1
    ensures ValueOf(s) >= 1
  {
    if |s| > 1 {
      ValueOfPositive(s[..|s| - 1]);
    }
  }

  lemma {:induction false} EncodeValueOf(s: string)
    requires IsCanonical(s)
    ensures AllDigits(s) && Encode(ValueOf(s)) == s
  {
    var last := s[|s| - 1];
    assert DigitChar(DigitValue(last)) == last;
    if |s| > 1 {
      var p := s[..|s| - 1];
      assert p[0] == s[0];
      EncodeValueOf(p);
      ValueOfPositive(p);
      var v := ValueOf(s);
      assert v == ValueOf(p) * 36 + DigitValue(last);
      assert v / 36 == ValueOf(p) && v % 36 == DigitValue(last);
      assert s == p + [last];
    }
  }

  /** Every canonical token is the token of the id it decodes to, and that id is positive. */
  lemma EncodeDecode(s: string)
    requires IsCanonical(s)
    ensures Decode(s) >= 1 && Encode(Decode(s)) == s
  {
    EncodeValueOf(s);
    LeadingDigitsStopAt(s, []);
    assert s + [] == s;
    ValueOfPositive(s);
  }

  /** Id 31323561 is the one whose token reads `index`. */
  lemma IndexIdToken()
    ensures Encode(INDEX_ID) == "index"
    ensures Decode("index") == INDEX_ID
  {
    assert Encode(INDEX_ID / 36 / 36 / 36 / 36) == "i";
    assert Encode(INDEX_ID / 36 / 36 / 36) == "in";
    assert Encode(INDEX_ID / 36 / 36) == "ind";
    assert Encode(INDEX_ID / 36) == "inde";
    DecodeEncode(INDEX_ID);
  }
}
