/** Decimal printing and parsing, as fmt's %d, Postgres' id::text and strconv.ParseInt(s, 10, 64) do them. */
module Decimal {
  import opened Common

  const INT64_MIN: int := -0x8000_0000_0000_0000
  const INT64_MAX: int := 0x7fff_ffff_ffff_ffff

  predicate IsInt64(i: int) {
    INT64_MIN <= i <= INT64_MAX
  }

  function PrintNat(n: nat): string {
    if n < 10 then [(48 + n) as char] else PrintNat(n / 10) + [(48 + n % 10) as char]
  }

  function PrintInt(i: int): string {
    if i < 0 then "-" + PrintNat(-i) else PrintNat(i)
  }

  predicate IsDigit(c: char) {
    '0' <= c <= '9'
  }

  /** The value of a non-empty string of digits. */
  function ParseNat(s: string): Option<nat> {
    if s == "" || !IsDigit(s[|s| - 1]) then None else
      var n := |s| - 1;
      var d := s[n] as int - 48;
      if n == 0 then Some(d) else
        var rest := ParseNat(s[..n]);
        if rest.None? then None else Some(rest.value * 10 + d)
  }

  /** An optional sign, then digits; out-of-range values are errors. */
  function ParseInt(s: string): Option<int> {
    var signed := s != "" && (s[0] == '-' || s[0] == '+');
    var magnitude := ParseNat(if signed then s[1..] else s);
    if magnitude.None? then None else
      var m: int := magnitude.value;
      var i := if signed && s[0] == '-' then -m else m;
      if IsInt64(i) then Some(i) else None
  }

  /** Printing is undone by parsing, and never produces anything but digits. */
  lemma {:induction false} NatRoundTrip(n: nat)
    ensures ParseNat(PrintNat(n)) == Some(n)
    ensures PrintNat(n) != "" && forall i :: 0 <= i < |PrintNat(n)| ==> IsDigit(PrintNat(n)[i])
  {
    if n >= 10 {
      NatRoundTrip(n / 10);
      var s := PrintNat(n);
      assert s[..|s| - 1] == PrintNat(n / 10);
    }
  }

  lemma IntRoundTrip(i: int)
    ensures ParseInt(PrintInt(i)) == if IsInt64(i) then Some(i) else None
  {
    NatRoundTrip(if i < 0 then -i else i);
    if i < 0 {
      assert PrintInt(i)[1..] == PrintNat(-i);
    }
  }

  lemma PrintIntInjective(i: int, j: int)
    requires PrintInt(i) == PrintInt(j)
    ensures i == j
  {
    NatRoundTrip(if i < 0 then -i else i);
    NatRoundTrip(if j < 0 then -j else j);
    assert PrintInt(i)[0] == PrintInt(j)[0];
    assert PrintInt(i)[1..] == PrintInt(j)[1..];
    assert i < 0 ==> PrintNat(-i) == PrintInt(i)[1..];
    assert j < 0 ==> PrintNat(-j) == PrintInt(j)[1..];
  }

  /** Only an optional sign and digits parse, and only to an int64; a plus sign is accepted and changes nothing. */
  lemma ParsesOnlyNumbers(s: string)
    ensures ParseInt(s).Some? ==>
              var digits := if s[0] == '-' || s[0] == '+' then s[1..] else s;
              digits != "" && (forall i :: 0 <= i < |digits| ==> IsDigit(digits[i])) && IsInt64(ParseInt(s).value)
              && (s[0] == '-' ==> ParseInt(s).value <= 0) && (s[0] != '-' ==> ParseInt(s).value >= 0)
    ensures s != "" && IsDigit(s[0]) ==> ParseInt("+" + s) == ParseInt(s)
  {
    if s != "" {
      ParsesOnlyDigits(s);
      ParsesOnlyDigits(s[1..]);
      assert ("+" + s)[1..] == s;
    }
  }

  lemma {:induction false} ParsesOnlyDigits(s: string)
    ensures ParseNat(s).Some? <==> s != "" && forall i :: 0 <= i < |s| ==> IsDigit(s[i])
  {
    if |s| > 1 {
      ParsesOnlyDigits(s[..|s| - 1]);
      assert ParseNat(s).Some? ==> forall i :: 0 <= i < |s| - 1 ==> s[i] == s[..|s| - 1][i];
    }
  }
}
