/** The stock columns of a book, both read from the table's
    `Availability` value, and the review count. */
module Stock {
  import opened Wrappers
  import opened Exceptions
  import opened Text

  datatype Availability = InStock | OutOfStock {
    /** The text stored in the record's `availability` column. */
    function Label(): string {
      match this
      case InStock => "In stock"
      case OutOfStock => "Out of stock"
    }
  }

  const IN_STOCK: string := "In stock"

  /** `"In stock" if "In stock" in raw else "Out of stock"`. */
  function AvailabilityOf(raw: string): (r: Availability)
    ensures r == InStock <==> exists i: nat :: OccursAt(raw, IN_STOCK, i)
  {
    ContainsIff(raw, IN_STOCK);
    if Contains(raw, IN_STOCK) then InStock else OutOfStock
  }

  const AVAILABLE_SUFFIX: string := " available)"

  /** The length of the run of decimal digits that `s` starts with. */
  function DigitRun(s: string): (n: nat)
    ensures n <= |s| && AllDigits(s[..n])
    ensures n == |s| || !IsDigit(s[n])
    decreases |s|
  {
    if |s| > 0 && IsDigit(s[0]) then
      var n := 1 + DigitRun(s[1..]);
      assert s[..n] == [s[0]] + s[1..][..n - 1];
      n
    else 0
  }

  /** The pattern `\((\d+) available\)` matches at index `i` of `s` with
      group 1 equal to `digits` (regular-expression semantics: any digit
      string that the rest of the pattern follows). */
  predicate MatchesAt(s: string, i: nat, digits: string) {
    i < |s| && s[i] == '(' && |digits| > 0 && AllDigits(digits)
    && IsPrefix(digits + AVAILABLE_SUFFIX, s[i + 1..])
  }

  /** Greedy matching of the pattern at index `i`. */
  function AvailableAt(s: string, i: nat): Option<string>
    requires i <= |s|
  {
    if i < |s| && s[i] == '(' then
      var rest := s[i + 1..];
      var n := DigitRun(rest);
      if n > 0 && IsPrefix(AVAILABLE_SUFFIX, rest[n..]) then Some(rest[..n]) else None
    else None
  }

  /** Greedy matching agrees with the pattern: the digit group is the whole
      digit run, since the space after it cannot extend it. */
  lemma AvailableAtIff(s: string, i: nat, digits: string)
    requires i <= |s|
    ensures AvailableAt(s, i) == Some(digits) <==> MatchesAt(s, i, digits)
  {
    if MatchesAt(s, i, digits) {
      var rest := s[i + 1..];
      var k := |digits|;
      var n := DigitRun(rest);
      assert rest[..k] == digits;
      assert rest[k] == ' ' by {
        assert (digits + AVAILABLE_SUFFIX)[k] == ' ';
      }
      assert forall j :: 0 <= j < k ==> IsDigit(rest[j]);
      assert n == k;
      assert rest[n..][..|AVAILABLE_SUFFIX|] == (digits + AVAILABLE_SUFFIX)[k..];
    }
    if AvailableAt(s, i) == Some(digits) {
      var rest := s[i + 1..];
      var n := DigitRun(rest);
      assert rest == rest[..n] + rest[n..];
    }
  }

  /** No match of the pattern starts in `[i, j)`. */
  predicate NoMatchBetween(s: string, i: nat, j: nat)
    requires j <= |s|
  {
    forall k: nat :: i <= k < j ==> AvailableAt(s, k).None?
  }

  /** The leftmost index at or after `i` where the pattern matches. */
  function FindAvailable(s: string, i: nat): (r: Option<nat>)
    requires i <= |s|
    ensures r.None? ==> NoMatchBetween(s, i, |s|)
    ensures r.Some? ==> i <= r.value < |s| && AvailableAt(s, r.value).Some? && NoMatchBetween(s, i, r.value)
    decreases |s| - i
  {
    if i == |s| then None
    else if AvailableAt(s, i).Some? then Some(i)
    else
      var r := FindAvailable(s, i + 1);
      NoMatchExtend(s, i, if r.Some? then r.value else |s|);
      r
  }

  lemma NoMatchExtend(s: string, i: nat, j: nat)
    requires i < j <= |s| && AvailableAt(s, i).None? && NoMatchBetween(s, i + 1, j)
    ensures NoMatchBetween(s, i, j)
  {
  }

  /** Index `i` is the leftmost match of the pattern, with group `digits`. */
  ghost predicate FirstMatch(s: string, i: nat, digits: string) {
    MatchesAt(s, i, digits) && forall j: nat, d :: j < i ==> !MatchesAt(s, j, d)
  }

  /** `num_available`: the group of the first `(<digits> available)`, read
      as a number, or 0 when the pattern does not occur. */
  function NumAvailable(raw: string): (n: nat)
    ensures (forall j: nat, d :: !MatchesAt(raw, j, d)) ==> n == 0
    ensures forall j: nat, d :: FirstMatch(raw, j, d) ==> n == ParseDigits(d)
  {
    match FindAvailable(raw, 0)
    case None =>
      assert forall j: nat, d :: FirstMatch(raw, j, d) ==> false by {
        forall j: nat, d | MatchesAt(raw, j, d)
          ensures AvailableAt(raw, j) == Some(d)
        {
          AvailableAtIff(raw, j, d);
        }
      }
      0
    case Some(j) =>
      var d := AvailableAt(raw, j).value;
      AvailableAtIff(raw, j, d);
      assert forall j': nat, d' :: FirstMatch(raw, j', d') ==> d' == d by {
        forall j': nat, d' | FirstMatch(raw, j', d')
          ensures d' == d
        {
          AvailableAtIff(raw, j', d');
          assert j' == j;
        }
      }
      ParseDigits(d)
  }

  /** `"In stock (22 available)"` gives (In stock, 22). */
  lemma InStockExample()
    ensures AvailabilityOf("In stock (22 available)") == InStock
    ensures NumAvailable("In stock (22 available)") == 22
  {
    var s := "In stock (22 available)";
    assert OccursAt(s, IN_STOCK, 0);
    InStockFirstMatch();
    assert ParseDigits("22") == 22 by {
      assert "22"[..1] == "2";
      assert "2"[..0] == "";
    }
  }

  lemma InStockFirstMatch()
    ensures FirstMatch("In stock (22 available)", 9, "22")
  {
    var s := "In stock (22 available)";
    assert MatchesAt(s, 9, "22");
    assert forall j: nat, d :: j < 9 ==> !MatchesAt(s, j, d);
  }

  /** `"Out of stock"` gives (Out of stock, 0). */
  lemma OutOfStockExample()
    ensures AvailabilityOf("Out of stock") == OutOfStock
    ensures NumAvailable("Out of stock") == 0
  {
    NeverInStock("Out of stock");
    NeverMatches("Out of stock");
  }

  /** Text without a capital `I` does not contain "In stock". */
  lemma NeverInStock(t: string)
    requires forall i :: 0 <= i < |t| ==> t[i] != 'I'
    ensures forall i: nat :: !OccursAt(t, IN_STOCK, i)
  {
    forall i: nat
      ensures !OccursAt(t, IN_STOCK, i)
    {
      if i < |t| {
        assert t[i..][0] == t[i];
      }
    }
  }

  /** Text without `(` has no count. */
  lemma NeverMatches(t: string)
    requires forall i :: 0 <= i < |t| ==> t[i] != '('
    ensures forall j: nat, d :: !MatchesAt(t, j, d)
  {
  }
}
