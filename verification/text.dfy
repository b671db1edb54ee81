/** The Python string operations the scraper relies on: substring tests
    (`sub in s`), `str.replace`, `str(n)` and `int(text)`, all over ASCII
    decimal digits. */
module Text {
  import opened Wrappers

  /** `p` is a prefix of `s`. */
  predicate IsPrefix(p: string, s: string) {
    |p| <= |s| && s[..|p|] == p
  }

  /** `sub` occurs in `s` starting at index `i`. */
  predicate OccursAt(s: string, sub: string, i: nat) {
    i <= |s| && IsPrefix(sub, s[i..])
  }

  /** Python's `sub in s`, as a left-to-right scan. */
  predicate Contains(s: string, sub: string)
    decreases |s|
  {
    IsPrefix(sub, s) || (|s| > 0 && Contains(s[1..], sub))
  }

  /** Dropping the first character shifts every occurrence one to the
      left. */
  lemma OccursShift(s: string, sub: string, i: nat)
    requires |s| > 0 && i > 0
    ensures OccursAt(s, sub, i) <==> OccursAt(s[1..], sub, i - 1)
  {
    if i <= |s| {
      assert s[1..][i - 1..] == s[i..];
    }
  }

  lemma {:induction false} ContainsWitness(s: string, sub: string)
    requires Contains(s, sub)
    ensures exists i: nat :: OccursAt(s, sub, i)
    decreases |s|
  {
    if IsPrefix(sub, s) {
      assert s[0..] == s;
      assert OccursAt(s, sub, 0);
    } else {
      ContainsWitness(s[1..], sub);
      var i: nat :| OccursAt(s[1..], sub, i);
      OccursShift(s, sub, i + 1);
    }
  }

  lemma {:induction false} NotContainsNowhere(s: string, sub: string, i: nat)
    requires !Contains(s, sub)
    ensures !OccursAt(s, sub, i)
    decreases |s|
  {
    if i == 0 {
      assert s[0..] == s;
    } else if |s| > 0 {
      OccursShift(s, sub, i);
      NotContainsNowhere(s[1..], sub, i - 1);
    }
  }

  /** The scan finds `sub` exactly when it occurs at some index. */
  lemma ContainsIff(s: string, sub: string)
    ensures Contains(s, sub) <==> exists i: nat :: OccursAt(s, sub, i)
  {
    if Contains(s, sub) {
      ContainsWitness(s, sub);
    } else {
      forall i: nat
        ensures !OccursAt(s, sub, i)
      {
        NotContainsNowhere(s, sub, i);
      }
    }
  }

  /** Python's `s.replace(pat, rep)` for a non-empty `pat`: one left-to-right
      pass that replaces every non-overlapping occurrence of `pat`. */
  function Replace(s: string, pat: string, rep: string): (r: string)
    requires |pat| > 0
    ensures !Contains(s, pat) ==> r == s
    ensures |rep| <= |pat| ==> |r| <= |s|
    decreases |s|
  {
    if IsPrefix(pat, s) then rep + Replace(s[|pat|..], pat, rep)
    else if |s| == 0 then s
    else [s[0]] + Replace(s[1..], pat, rep)
  }

  /** `k` copies of `s`, one after the other. */
  function Repeat(s: string, k: nat): string {
    if k == 0 then [] else s + Repeat(s, k - 1)
  }

  /** Leading copies of the pattern are each replaced, and the scan then
      carries on with the rest of the string. */
  lemma {:induction false} ReplaceLeadingRepeats(pat: string, rep: string, k: nat, t: string)
    requires |pat| > 0
    ensures Replace(Repeat(pat, k) + t, pat, rep) == Repeat(rep, k) + Replace(t, pat, rep)
  {
    if k > 0 {
      var u := Repeat(pat, k - 1) + t;
      ReplaceAfterPattern(pat, u, rep);
      ConcatAssoc(pat, Repeat(pat, k - 1), t);
      ReplaceLeadingRepeats(pat, rep, k - 1, t);
      ConcatAssoc(rep, Repeat(rep, k - 1), Replace(t, pat, rep));
    } else {
      assert Repeat(pat, k) + t == t;
      assert Repeat(rep, k) + Replace(t, pat, rep) == Replace(t, pat, rep);
    }
  }

  /** An occurrence at the front is replaced and the scan resumes after
      it. */
  lemma ReplaceAtPattern(s: string, pat: string, rep: string)
    requires |pat| > 0 && |pat| <= |s| && s[..|pat|] == pat
    ensures Replace(s, pat, rep) == rep + Replace(s[|pat|..], pat, rep)
  {
  }

  lemma ReplaceAfterPattern(pat: string, u: string, rep: string)
    requires |pat| > 0
    ensures Replace(pat + u, pat, rep) == rep + Replace(u, pat, rep)
  {
    var s := pat + u;
    assert s[..|pat|] == pat && s[|pat|..] == u;
    ReplaceAtPattern(s, pat, rep);
  }

  /** The pass is single: removing `"../"` from `"..././"` leaves a new
      `"../"` behind, as Python does. */
  lemma ReplaceIsSinglePass()
    ensures Replace("..././", "../", "") == "../"
  {
    var s := "..././";
    assert s[..3][2] != "../"[2];
    assert !IsPrefix("../", s);
    assert s[1..] == "../" + "./";
    assert IsPrefix("../", s[1..]);
    assert s[1..][3..] == "./";
    assert !IsPrefix("../", "./");
    assert "./"[1..] == "/";
    assert !IsPrefix("../", "/");
    assert "/"[1..] == "";
  }

  // ---------------------------------------------------------------- digits

  predicate IsDigit(c: char) {
    '0' <= c <= '9'
  }

  predicate AllDigits(s: string) {
    forall i :: 0 <= i < |s| ==> IsDigit(s[i])
  }

  function DigitValue(c: char): (d: nat)
    requires IsDigit(c)
    ensures d < 10
  {
    c as int - '0' as int
  }

  function DigitChar(d: nat): (c: char)
    requires d < 10
    ensures IsDigit(c) && DigitValue(c) == d
  {
    ('0' as int + d) as char
  }

  /** The value of a string of decimal digits; leading zeros are allowed,
      as Python's `int` allows them. */
  function ParseDigits(s: string): nat
    requires AllDigits(s)
    decreases |s|
  {
    if |s| == 0 then 0 else ParseDigits(s[..|s| - 1]) * 10 + DigitValue(s[|s| - 1])
  }

  /** Python's `str(n)` for a non-negative integer: its canonical decimal
      form, without leading zeros. */
  function NatToString(n: nat): (r: string)
    ensures |r| > 0 && AllDigits(r)
    ensures r[0] == '0' ==> n == 0
    decreases n
  {
    if n < 10 then [DigitChar(n)] else NatToString(n / 10) + [DigitChar(n % 10)]
  }

  lemma {:induction false} ParseNatToString(n: nat)
    ensures ParseDigits(NatToString(n)) == n
    decreases n
  {
    if n >= 10 {
      var s := NatToString(n);
      assert s[..|s| - 1] == NatToString(n / 10);
      ParseNatToString(n / 10);
    }
  }

  /** Distinct numbers print differently. */
  lemma NatToStringInjective(m: nat, n: nat)
    ensures NatToString(m) == NatToString(n) ==> m == n
  {
    ParseNatToString(m);
    ParseNatToString(n);
  }

  /** Printing a canonical digit string's value gives the string back. */
  lemma {:induction false} NatToStringOfDigits(s: string)
    requires |s| > 0 && AllDigits(s) && (s[0] == '0' ==> |s| == 1)
    ensures NatToString(ParseDigits(s)) == s
    decreases |s|
  {
    var init := s[..|s| - 1];
    var d := DigitValue(s[|s| - 1]);
    if |s| == 1 {
      assert ParseDigits(s) == ParseDigits(init) * 10 + d;
      assert ParseDigits(init) == 0;
      assert [DigitChar(d)] == s;
    } else {
      NatToStringOfDigits(init);
      LeadingDigitPositive(init);
      var n := ParseDigits(s);
      assert n == ParseDigits(init) * 10 + d;
      assert n / 10 == ParseDigits(init) && n % 10 == d;
      assert s == init + [s[|s| - 1]];
    }
  }

  lemma {:induction false} LeadingDigitPositive(s: string)
    requires |s| > 0 && AllDigits(s) && s[0] != '0'
    ensures ParseDigits(s) > 0
    decreases |s|
  {
    if |s| > 1 {
      LeadingDigitPositive(s[..|s| - 1]);
    }
  }

  /** Python's `int(text)` on text that `get_text(strip=True)` has already
      trimmed: an optional sign followed by decimal digits; anything else
      raises. */
  function ParseInt(s: string): Option<int> {
    if |s| > 0 && (s[0] == '-' || s[0] == '+') then
      if |s| > 1 && AllDigits(s[1..]) then
        var magnitude: int := ParseDigits(s[1..]);
        Some(if s[0] == '-' then -magnitude else magnitude)
      else None
    else if |s| > 0 && AllDigits(s) then Some(ParseDigits(s))
    else None
  }

  /** The sign prefixes `int` accepts. */
  predicate IsSign(sign: string) {
    sign == "" || sign == "+" || sign == "-"
  }

  /** The integer `<sign><k zeros><decimal form of n>` denotes. */
  function Signed(sign: string, n: nat): int {
    var v: int := n;
    if sign == "-" then -v else v
  }

  lemma {:induction false} ZerosAreDigits(k: nat)
    ensures |Repeat("0", k)| == k && AllDigits(Repeat("0", k))
    decreases k
  {
    if k > 0 {
      ZerosAreDigits(k - 1);
    }
  }

  /** A leading zero does not change the value of a digit string. */
  lemma {:induction false} LeadingZero(d: string)
    requires AllDigits(d)
    ensures AllDigits("0" + d) && ParseDigits("0" + d) == ParseDigits(d)
    decreases |d|
  {
    var z := "0" + d;
    if |d| > 0 {
      assert z[..|z| - 1] == "0" + d[..|d| - 1];
      assert z[|z| - 1] == d[|d| - 1];
      LeadingZero(d[..|d| - 1]);
    } else {
      assert z[..0] == "";
    }
  }

  /** Any number of leading zeros leaves the value unchanged. */
  lemma {:induction false} LeadingZeros(k: nat, d: string)
    requires AllDigits(d)
    ensures AllDigits(Repeat("0", k) + d) && ParseDigits(Repeat("0", k) + d) == ParseDigits(d)
    decreases k
  {
    if k > 0 {
      LeadingZeros(k - 1, d);
      assert Repeat("0", k) + d == "0" + (Repeat("0", k - 1) + d);
      LeadingZero(Repeat("0", k - 1) + d);
    } else {
      assert Repeat("0", k) + d == d;
    }
  }

  lemma ConcatAssoc(a: string, b: string, c: string)
    ensures (a + b) + c == a + (b + c)
  {
  }

  /** The number of leading zeros before a digit string's canonical form
      (a lone `"0"` keeps its zero). */
  function ZeroCount(d: string): nat
    decreases |d|
  {
    if |d| > 1 && d[0] == '0' then 1 + ZeroCount(d[1..]) else 0
  }

  /** Every non-empty digit string is zeros followed by a canonical
      decimal form. */
  lemma {:induction false} DigitsSplit(d: string)
    requires |d| > 0 && AllDigits(d)
    ensures d == Repeat("0", ZeroCount(d)) + NatToString(ParseDigits(d))
    decreases |d|
  {
    if |d| > 1 && d[0] == '0' {
      var rest := d[1..];
      assert d == "0" + rest;
      LeadingZero(rest);
      DigitsSplit(rest);
      var c := NatToString(ParseDigits(rest));
      assert Repeat("0", ZeroCount(d)) == "0" + Repeat("0", ZeroCount(rest));
      ConcatAssoc("0", Repeat("0", ZeroCount(rest)), c);
    } else {
      NatToStringOfDigits(d);
      assert Repeat("0", 0) == "";
    }
  }

  /** `int` of a signed or unsigned digit string. */
  lemma ParseIntOfDigits(sign: string, d: string)
    requires IsSign(sign) && |d| > 0 && AllDigits(d)
    ensures ParseInt(sign + d) == Some(Signed(sign, ParseDigits(d)))
  {
    var s := sign + d;
    if sign == "" {
      assert s == d;
      assert IsDigit(s[0]);
    } else {
      assert s[0] == sign[0] && s[1..] == d;
    }
  }

  /** `int` reads a sign, any leading zeros and a decimal form as the
      signed value: `int("007") == 7`, `int("+5") == 5`, `int("-0") == 0`. */
  lemma ParseIntOfParts(sign: string, k: nat, n: nat)
    requires IsSign(sign)
    ensures ParseInt(sign + Repeat("0", k) + NatToString(n)) == Some(Signed(sign, n))
  {
    var d := Repeat("0", k) + NatToString(n);
    ZerosAreDigits(k);
    LeadingZeros(k, NatToString(n));
    ParseNatToString(n);
    assert ParseDigits(d) == n;
    ParseIntOfDigits(sign, d);
    ConcatAssoc(sign, Repeat("0", k), NatToString(n));
  }

  /** Every text `int` accepts is a sign, zeros and a decimal form. */
  lemma ParseIntOnlyParts(s: string)
    requires ParseInt(s).Some?
    ensures exists sign, k: nat, n: nat :: IsSign(sign) && s == sign + Repeat("0", k) + NatToString(n)
  {
    var sign, d;
    if s[0] == '-' || s[0] == '+' {
      sign, d := s[..1], s[1..];
      assert AllDigits(d) && |d| > 0;
    } else {
      sign, d := "", s;
      assert AllDigits(d) && |d| > 0;
    }
    assert IsSign(sign) && s == sign + d;
    DigitsSplit(d);
    var z, c := Repeat("0", ZeroCount(d)), NatToString(ParseDigits(d));
    ConcatAssoc(sign, z, c);
    assert s == sign + z + c;
  }

  /** The texts `int` accepts are exactly a sign, zeros and a decimal
      form. */
  lemma ParseIntAccepts(s: string)
    ensures ParseInt(s).Some? <==>
            exists sign, k: nat, n: nat :: IsSign(sign) && s == sign + Repeat("0", k) + NatToString(n)
  {
    if ParseInt(s).Some? {
      ParseIntOnlyParts(s);
    }
    forall sign, k: nat, n: nat | IsSign(sign) && s == sign + Repeat("0", k) + NatToString(n)
      ensures ParseInt(s).Some?
    {
      ParseIntOfParts(sign, k, n);
    }
  }

  /** Python's `str(v)` for any integer. */
  function IntToString(v: int): string {
    if v < 0 then "-" + NatToString(-v) else NatToString(v)
  }

  /** `int(str(v)) == v`. */
  lemma ParseIntToString(v: int)
    ensures ParseInt(IntToString(v)) == Some(v)
  {
    var s := IntToString(v);
    if v < 0 {
      assert s[1..] == NatToString(-v);
      ParseNatToString(-v);
    } else {
      ParseNatToString(v);
    }
  }
}
