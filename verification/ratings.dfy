/** The star rating of a book: the closed vocabulary `RATING_MAP` and the
    reading of the rating marker's class tokens. */
module Ratings {
  import opened Wrappers

  /** Unrated stands for "no marker" and for any token outside the
      vocabulary; the others are one to five stars. */
  datatype Rating = Unrated | One | Two | Three | Four | Five

  /** The number stored in the record's `rating` column. */
  function Stars(r: Rating): (n: nat)
    ensures n <= 5
    ensures n == 0 <==> r == Unrated
  {
    match r
    case Unrated => 0
    case One => 1
    case Two => 2
    case Three => 3
    case Four => 4
    case Five => 5
  }

  /** The class every rating marker carries besides its rating word. */
  const STAR_MARKER: string := "star-rating"

  const RATING_MAP: map<string, nat> := map["One" := 1, "Two" := 2, "Three" := 3, "Four" := 4, "Five" := 5]

  /** `RATING_MAP.get(token, 0)`, as a `Rating`. */
  function RatingOfToken(token: string): (r: Rating)
    ensures Stars(r) == if token in RATING_MAP then RATING_MAP[token] else 0
  {
    if token == "One" then One
    else if token == "Two" then Two
    else if token == "Three" then Three
    else if token == "Four" then Four
    else if token == "Five" then Five
    else Unrated
  }

  /** The vocabulary word of a rating. */
  function TokenOf(r: Rating): string
    requires r != Unrated
  {
    match r
    case One => "One"
    case Two => "Two"
    case Three => "Three"
    case Four => "Four"
    case Five => "Five"
  }

  /** Every rating is read back from its own word, and the only words that
      give a rating are the vocabulary's. */
  lemma TokenRoundTrip(r: Rating, token: string)
    ensures r != Unrated ==> RatingOfToken(TokenOf(r)) == r
    ensures RatingOfToken(token) != Unrated ==> TokenOf(RatingOfToken(token)) == token
  {
  }

  /** The class tokens other than the marker, in order. */
  function OtherTokens(classes: seq<string>): seq<string>
    decreases |classes|
  {
    if |classes| == 0 then []
    else if classes[0] == STAR_MARKER then OtherTokens(classes[1..])
    else [classes[0]] + OtherTokens(classes[1..])
  }

  /** Index `i` holds the first token that is not the marker. */
  predicate FirstOtherAt(classes: seq<string>, i: nat) {
    i < |classes| && classes[i] != STAR_MARKER
    && forall j :: 0 <= j < i ==> classes[j] == STAR_MARKER
  }

  /** The first of the other tokens is the first non-marker token, and
      there is none when every token is the marker. */
  lemma {:induction false} OtherTokensHead(classes: seq<string>)
    ensures |OtherTokens(classes)| == 0 <==> forall i :: 0 <= i < |classes| ==> classes[i] == STAR_MARKER
    ensures forall i: nat :: FirstOtherAt(classes, i) ==> OtherTokens(classes)[0] == classes[i]
    decreases |classes|
  {
    if |classes| > 0 {
      OtherTokensHead(classes[1..]);
      if classes[0] == STAR_MARKER {
        forall i: nat | FirstOtherAt(classes, i)
          ensures OtherTokens(classes)[0] == classes[i]
        {
          assert i > 0;
          assert FirstOtherAt(classes[1..], i - 1);
        }
        if forall i :: 0 <= i < |classes[1..]| ==> classes[1..][i] == STAR_MARKER {
          forall i | 0 <= i < |classes|
            ensures classes[i] == STAR_MARKER
          {
            if i > 0 {
              assert classes[1..][i - 1] == classes[i];
            }
          }
        }
      } else {
        assert forall i: nat :: FirstOtherAt(classes, i) ==> i == 0;
      }
    }
  }

  /** The rating read from `<p class="star-rating ...">`: absent marker,
      no other token, or a first other token outside the vocabulary all
      give Unrated, even when a later token would match. */
  function RatingOfMarker(classes: Option<seq<string>>): (r: Rating)
    ensures classes.None? ==> r == Unrated
    ensures classes.Some? ==> forall i: nat :: FirstOtherAt(classes.value, i) ==> r == RatingOfToken(classes.value[i])
    ensures classes.Some? && (forall i :: 0 <= i < |classes.value| ==> classes.value[i] == STAR_MARKER) ==> r == Unrated
  {
    match classes
    case None => Unrated
    case Some(cs) =>
      OtherTokensHead(cs);
      var others := OtherTokens(cs);
      if |others| > 0 then RatingOfToken(others[0]) else Unrated
  }

  /** Only the first other token is read. */
  lemma FirstTokenDecides()
    ensures RatingOfMarker(Some([STAR_MARKER, "Bogus", "Four"])) == Unrated
    ensures RatingOfMarker(Some([STAR_MARKER, "Four"])) == Four
    ensures RatingOfMarker(Some([STAR_MARKER])) == Unrated
  {
    assert FirstOtherAt([STAR_MARKER, "Bogus", "Four"], 1);
    assert FirstOtherAt([STAR_MARKER, "Four"], 1);
  }
}
