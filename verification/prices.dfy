/** `parse_price`: the first run of digits and dots in a table value, read
    as a decimal number. */
module Prices {
  import opened Wrappers
  import opened Exceptions
  import opened Text

  /** The character class `[\d.]`. */
  predicate IsPriceChar(c: char) {
    IsDigit(c) || c == '.'
  }

  predicate AllPriceChars(s: string) {
    forall i :: 0 <= i < |s| ==> IsPriceChar(s[i])
  }

  /** The length of the run of `[\d.]` that `s` starts with. */
  function RunLength(s: string): (n: nat)
    ensures n <= |s| && AllPriceChars(s[..n])
    ensures n == |s| || !IsPriceChar(s[n])
    decreases |s|
  {
    if |s| > 0 && IsPriceChar(s[0]) then
      var n := 1 + RunLength(s[1..]);
      assert s[..n] == [s[0]] + s[1..][..n - 1];
      n
    else 0
  }

  /** `run` is the leftmost maximal run of `[\d.]` in `s`, starting at `i`. */
  predicate IsFirstRun(s: string, i: nat, run: string) {
    i + |run| <= |s| && |run| > 0 && s[i..i + |run|] == run && AllPriceChars(run)
    && (forall j :: 0 <= j < i ==> !IsPriceChar(s[j]))
    && (i + |run| == |s| || !IsPriceChar(s[i + |run|]))
  }

  lemma FirstRunShift(s: string, i: nat, run: string)
    requires |s| > 0 && !IsPriceChar(s[0]) && IsFirstRun(s[1..], i, run)
    ensures IsFirstRun(s, i + 1, run)
  {
    assert s[1..][i..i + |run|] == s[i + 1..i + 1 + |run|];
    forall j | 1 <= j < i + 1
      ensures !IsPriceChar(s[j])
    {
      assert s[1..][j - 1] == s[j];
    }
  }

  /** `re.search(r"[\d.]+", s)`: the first maximal run of digits and dots,
      or nothing when `s` has neither. */
  function FindRun(s: string): (r: Option<string>)
    ensures r.None? <==> forall j :: 0 <= j < |s| ==> !IsPriceChar(s[j])
    ensures r.Some? ==> exists i: nat :: IsFirstRun(s, i, r.value)
    decreases |s|
  {
    if |s| == 0 then None
    else if IsPriceChar(s[0]) then
      var n := RunLength(s);
      assert IsFirstRun(s, 0, s[..n]);
      Some(s[..n])
    else
      var r := FindRun(s[1..]);
      assert forall j :: 1 <= j < |s| ==> s[1..][j - 1] == s[j];
      if r.Some? then
        var i: nat :| IsFirstRun(s[1..], i, r.value);
        FirstRunShift(s, i, r.value);
        r
      else r
  }

  /** A string has only one first run. */
  lemma FirstRunUnique(s: string, i: nat, a: string, j: nat, b: string)
    requires IsFirstRun(s, i, a) && IsFirstRun(s, j, b)
    ensures i == j && a == b
  {
    assert s[i..i + |a|][0] == s[i];
    assert s[j..j + |b|][0] == s[j];
    assert forall k :: 0 <= k < |a| ==> a[k] == s[i + k];
    assert forall k :: 0 <= k < |b| ==> b[k] == s[j + k];
  }

  function Pow10(k: nat): (p: nat)
    ensures p >= 1
  {
    if k == 0 then 1 else 10 * Pow10(k - 1)
  }

  /** The index of the first `.` in `s`, or `|s|`. */
  function DotIndex(s: string): (p: nat)
    ensures p <= |s| && (p < |s| ==> s[p] == '.')
    ensures forall j :: 0 <= j < p ==> s[j] != '.'
    decreases |s|
  {
    if |s| == 0 || s[0] == '.' then 0 else 1 + DotIndex(s[1..])
  }

  lemma {:induction false} NoDotCount(s: string)
    requires forall j :: 0 <= j < |s| ==> s[j] != '.'
    ensures multiset(s)['.'] == 0
    decreases |s|
  {
    if |s| > 0 {
      assert s == [s[0]] + s[1..];
      NoDotCount(s[1..]);
    }
  }

  /** The text a run of `[\d.]` gives to `float`: at most one dot and at
      least one digit. */
  ghost predicate IsFloatText(run: string) {
    multiset(run)['.'] <= 1 && exists i :: 0 <= i < |run| && IsDigit(run[i])
  }

  /** A dot-free run is a float text exactly when it is non-empty. */
  lemma DotFreeRun(run: string)
    requires AllPriceChars(run) && forall j :: 0 <= j < |run| ==> run[j] != '.'
    ensures AllDigits(run)
    ensures IsFloatText(run) <==> |run| > 0
  {
    NoDotCount(run);
    if |run| > 0 {
      assert IsDigit(run[0]);
    }
  }

  /** Splitting at the first dot: the dots of `whole.frac` are that dot
      and the dots of `frac`. */
  lemma DotCountSplit(whole: string, frac: string)
    requires forall j :: 0 <= j < |whole| ==> whole[j] != '.'
    ensures multiset(whole + ['.'] + frac)['.'] == 1 + multiset(frac)['.']
  {
    NoDotCount(whole);
    assert multiset(whole + ['.'] + frac) == multiset(whole) + multiset(['.']) + multiset(frac);
  }

  /** A run `whole.frac` with a dot-free `whole` is a float text exactly
      when `frac` has no dot and one of the two parts is non-empty. */
  lemma DottedRun(run: string, p: nat)
    requires AllPriceChars(run) && p < |run| && run[p] == '.'
    requires forall j :: 0 <= j < p ==> run[j] != '.'
    ensures IsFloatText(run) <==> (forall j :: p < j < |run| ==> run[j] != '.') && |run| > 1
  {
    var whole := run[..p];
    var frac := run[p + 1..];
    assert run == whole + ['.'] + frac;
    DotCountSplit(whole, frac);
    DotsAfter(run, p);
    DigitBesideDot(run, p);
  }

  /** No dot after position `p` means no dot in the part after it. */
  lemma DotsAfter(run: string, p: nat)
    requires p < |run|
    ensures (forall j :: p < j < |run| ==> run[j] != '.') <==> multiset(run[p + 1..])['.'] == 0
  {
    var frac := run[p + 1..];
    if forall j :: p < j < |run| ==> run[j] != '.' {
      assert forall j :: 0 <= j < |frac| ==> frac[j] == run[p + 1 + j];
      NoDotCount(frac);
    } else {
      var j :| p < j < |run| && run[j] == '.';
      assert frac[j - p - 1] == '.';
      assert frac[j - p - 1] in multiset(frac);
    }
  }

  /** A run with its first dot at `p` holds a digit iff it is longer than
      the dot, once any further dot is ruled out. */
  lemma DigitBesideDot(run: string, p: nat)
    requires AllPriceChars(run) && p < |run| && run[p] == '.'
    requires forall j :: 0 <= j < p ==> run[j] != '.'
    ensures (forall j :: p < j < |run| ==> run[j] != '.') ==>
              ((exists i :: 0 <= i < |run| && IsDigit(run[i])) <==> |run| > 1)
  {
    if (forall j :: p < j < |run| ==> run[j] != '.') && |run| > 1 {
      if p > 0 {
        assert IsDigit(run[0]);
      } else {
        assert IsDigit(run[1]);
      }
    }
  }

  /** The number `float(run)` denotes, for a run of `[\d.]`; a run that is
      not a float text (`"."`, `"1.2.3"`) makes `float` raise. */
  function DecimalValue(run: string): (r: Option<real>)
    requires AllPriceChars(run)
    ensures r.Some? <==> IsFloatText(run)
    ensures r.Some? ==> r.value >= 0.0
  {
    var p := DotIndex(run);
    if p == |run| then
      DotFreeRun(run);
      if |run| > 0 then Some(ParseDigits(run) as real) else None
    else
      DottedRun(run, p);
      var whole := run[..p];
      var frac := run[p + 1..];
      assert forall j :: 0 <= j < |frac| ==> frac[j] == run[p + 1 + j];
      if DotIndex(frac) < |frac| || |run| == 1 then None
      else
        assert AllDigits(whole) && AllDigits(frac);
        Some(DecimalOf(whole, frac))
  }

  /** The number written `<whole>.<frac>`. */
  function DecimalOf(whole: string, frac: string): real
    requires AllDigits(whole) && AllDigits(frac)
  {
    ParseDigits(whole) as real + ParseDigits(frac) as real / Pow10(|frac|) as real
  }

  /** A run of digits denotes their value. */
  lemma DecimalValueOfDigits(digits: string)
    requires AllDigits(digits) && |digits| > 0
    ensures AllPriceChars(digits)
    ensures DecimalValue(digits) == Some(ParseDigits(digits) as real)
  {
  }

  /** A run `<whole>.<frac>` of digits denotes the whole part plus the
      fraction. */
  lemma DecimalValueOfParts(whole: string, frac: string)
    requires AllDigits(whole) && AllDigits(frac) && |whole| + |frac| > 0
    ensures AllPriceChars(whole + "." + frac)
    ensures DecimalValue(whole + "." + frac) == Some(DecimalOf(whole, frac))
  {
    var run := whole + "." + frac;
    assert run == whole + ("." + frac);
    assert forall j :: 0 <= j < |whole| ==> whole[j] != '.';
    DotIndexOf(whole, "." + frac);
    var p := DotIndex(run);
    assert p == |whole|;
    assert run[..p] == whole;
    assert run[p + 1..] == frac;
    assert DotIndex(frac) == |frac|;
  }

  lemma {:induction false} DotIndexOf(a: string, b: string)
    requires forall j :: 0 <= j < |a| ==> a[j] != '.'
    requires |b| > 0 && b[0] == '.'
    ensures DotIndex(a + b) == |a|
    decreases |a|
  {
    if |a| > 0 {
      assert (a + b)[1..] == a[1..] + b;
      DotIndexOf(a[1..], b);
    } else {
      assert a + b == b;
    }
  }

  /** `parse_price`: the first run of digits and dots read as a decimal
      number, 0 when there is no run; a run `float` rejects raises. */
  function ParsePrice(raw: string): (r: Result<real, Exception>)
    ensures (forall j :: 0 <= j < |raw| ==> !IsPriceChar(raw[j])) ==> r == Success(0.0)
    ensures forall i: nat, run :: IsFirstRun(raw, i, run) ==>
              (r.Success? <==> IsFloatText(run)) && (r.Success? ==> Some(r.value) == DecimalValue(run))
    ensures r.Success? ==> r.value >= 0.0
  {
    match FindRun(raw)
    case None => Success(0.0)
    case Some(run) =>
      assert forall i: nat, run' :: IsFirstRun(raw, i, run') ==> run' == run by {
        var i0: nat :| IsFirstRun(raw, i0, run);
        forall i: nat, run' | IsFirstRun(raw, i, run')
          ensures run' == run
        {
          FirstRunUnique(raw, i, run', i0, run);
        }
      }
      match DecimalValue(run)
      case None => Failure(ValueError(run))
      case Some(v) => Success(v)
  }

  /** `parse_price("£51.77")` is 51.77. */
  lemma ParsePriceSterling()
    ensures ParsePrice("£51.77") == Success(51.77)
  {
    SterlingRun();
    SterlingValue();
  }

  lemma SterlingRun()
    ensures IsFirstRun("£51.77", 1, "51.77")
  {
    assert "£51.77"[1..6] == "51.77";
  }

  lemma SterlingValue()
    ensures AllPriceChars("51.77") && DecimalValue("51.77") == Some(51.77)
  {
    DecimalValueOfParts("51", "77");
    assert "51" + "." + "77" == "51.77";
    SterlingDigits();
  }

  lemma SterlingDigits()
    ensures DecimalOf("51", "77") == 51.77
  {
    assert ParseDigits("51") == 51 by {
      assert "51"[..1] == "5";
      assert "5"[..0] == "";
    }
    assert ParseDigits("77") == 77 by {
      assert "77"[..1] == "7";
      assert "7"[..0] == "";
    }
    assert Pow10(|"77"|) == 100;
    assert DecimalOf("51", "77") == 51 as real + 77 as real / 100 as real;
    FiftyOneSeventySeven();
  }

  lemma FiftyOneSeventySeven()
    ensures 51 as real + 77 as real / 100 as real == 51.77
  {
  }

  /** The fallback `"0"` of a missing key reads as 0. */
  lemma ParsePriceMissingKey()
    ensures ParsePrice("0") == Success(0.0)
  {
    assert IsFirstRun("0", 0, "0");
    DecimalValueOfDigits("0");
    assert ParseDigits("0") == 0 by {
      assert "0"[..0] == "";
    }
  }

  /** A lone dot is a run `float` rejects. */
  lemma ParsePriceLoneDot()
    ensures ParsePrice("£.").Failure?
  {
    assert IsFirstRun("£.", 1, ".");
    assert multiset(".")['.'] == 1;
  }
}
