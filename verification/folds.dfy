/** The one loop shape the scraper uses three times (over a listing's
    articles, over the listing pages and over the book references): visit
    the items in order, append what each contributes, and let the first
    exception abort the whole loop. */
module Folds {
  import opened Wrappers

  /** The concatenation of a sequence of sequences, in order. */
  function Concat<U>(xss: seq<seq<U>>): seq<U>
    decreases |xss|
  {
    if |xss| == 0 then [] else xss[0] + Concat(xss[1..])
  }

  lemma {:induction false} ConcatAppend<U>(a: seq<seq<U>>, b: seq<seq<U>>)
    ensures Concat(a + b) == Concat(a) + Concat(b)
    decreases |a|
  {
    if |a| == 0 {
      assert a + b == b;
    } else {
      assert (a + b)[1..] == a[1..] + b;
      ConcatAppend(a[1..], b);
    }
  }

  /** What one step contributes when it does not raise. */
  function OutputOf<U, E>(r: Result<seq<U>, E>): seq<U> {
    if r.Success? then r.value else []
  }

  /** The per-item contributions, item by item. */
  function Outputs<T, U, E>(f: T -> Result<seq<U>, E>, xs: seq<T>): seq<seq<U>> {
    seq(|xs|, i requires 0 <= i < |xs| => OutputOf(f(xs[i])))
  }

  /** Item `i` is the first one whose step raises. */
  predicate FirstFailure<T, U, E>(f: T -> Result<seq<U>, E>, xs: seq<T>, i: nat) {
    i < |xs| && f(xs[i]).Failure? && forall j :: 0 <= j < i ==> f(xs[j]).Success?
  }

  /** Runs `f` on every item in order and concatenates the outputs; the
      first exception escapes and nothing is returned. */
  function FlatMap<T, U, E>(f: T -> Result<seq<U>, E>, xs: seq<T>): (r: Result<seq<U>, E>)
    ensures r.Failure? <==> exists i :: 0 <= i < |xs| && f(xs[i]).Failure?
    ensures r.Failure? ==> exists i: nat :: FirstFailure(f, xs, i) && r.error == f(xs[i]).error
    decreases |xs|
  {
    if |xs| == 0 then Success([])
    else
      match f(xs[0])
      case Failure(e) =>
        assert FirstFailure(f, xs, 0);
        Failure(e)
      case Success(head) =>
        match FlatMap(f, xs[1..])
        case Failure(e) =>
          assert exists i: nat :: FirstFailure(f, xs, i) && e == f(xs[i]).error by {
            var i: nat :| FirstFailure(f, xs[1..], i) && e == f(xs[1..][i]).error;
            assert FirstFailure(f, xs, i + 1);
          }
          Failure(e)
        case Success(rest) =>
          Success(head + rest)
  }

  /** Without an exception, the loop's output is the concatenation of the
      items' outputs, in item order. */
  lemma {:induction false} FlatMapValue<T, U, E>(f: T -> Result<seq<U>, E>, xs: seq<T>)
    requires FlatMap(f, xs).Success?
    ensures FlatMap(f, xs).value == Concat(Outputs(f, xs))
    decreases |xs|
  {
    if |xs| > 0 {
      FlatMapValue(f, xs[1..]);
      assert Outputs(f, xs) == [OutputOf(f(xs[0]))] + Outputs(f, xs[1..]);
    }
  }

  /** Runs two loops one after the other: the first one's exception wins. */
  function Then<U, E>(a: Result<seq<U>, E>, b: Result<seq<U>, E>): Result<seq<U>, E> {
    match a
    case Failure(e) => Failure(e)
    case Success(x) =>
      match b
      case Failure(e) => Failure(e)
      case Success(y) => Success(x + y)
  }

  /** Looping over `a + b` is looping over `a`, then over `b`. */
  lemma {:induction false} FlatMapAppend<T, U, E>(f: T -> Result<seq<U>, E>, a: seq<T>, b: seq<T>)
    ensures FlatMap(f, a + b) == Then(FlatMap(f, a), FlatMap(f, b))
    decreases |a|
  {
    if |a| == 0 {
      assert a + b == b;
      match FlatMap(f, b)
      case Failure(e) =>
      case Success(y) =>
        assert [] + y == y;
    } else {
      assert (a + b)[0] == a[0];
      assert (a + b)[1..] == a[1..] + b;
      FlatMapAppend(f, a[1..], b);
      match f(a[0])
      case Failure(e) =>
      case Success(head) =>
        match FlatMap(f, a[1..])
        case Failure(e) =>
        case Success(x) =>
          match FlatMap(f, b)
          case Failure(e) =>
          case Success(y) =>
            assert head + (x + y) == (head + x) + y;
    }
  }

  /** Looping over one item is running its step. */
  lemma FlatMapOne<T, U, E>(f: T -> Result<seq<U>, E>, x: T)
    ensures FlatMap(f, [x]) == f(x)
  {
    assert [x][1..] == [];
    match f(x)
    case Failure(_) =>
    case Success(v) =>
      assert v + [] == v;
  }

  /** Looping over `xs` is looping over the items before `k`, running
      item `k`'s step, then looping over the items after it. */
  lemma FlatMapSplit<T, U, E>(f: T -> Result<seq<U>, E>, xs: seq<T>, k: nat)
    requires k < |xs|
    ensures FlatMap(f, xs) == Then(Then(FlatMap(f, xs[..k]), f(xs[k])), FlatMap(f, xs[k + 1..]))
  {
    var front := xs[..k] + [xs[k]];
    SplitAround(xs, k);
    FlatMapAppend(f, front, xs[k + 1..]);
    FlatMapAppend(f, xs[..k], [xs[k]]);
    FlatMapOne(f, xs[k]);
  }

  lemma SplitAround<T>(xs: seq<T>, k: nat)
    requires k < |xs|
    ensures xs == (xs[..k] + [xs[k]]) + xs[k + 1..]
  {
  }

  /** A loop that finishes has a prefix that finishes too. */
  lemma FlatMapPrefix<T, U, E>(f: T -> Result<seq<U>, E>, xs: seq<T>, k: nat)
    requires k <= |xs| && FlatMap(f, xs).Success?
    ensures FlatMap(f, xs[..k]).Success?
  {
    assert xs == xs[..k] + xs[k..];
    FlatMapAppend(f, xs[..k], xs[k..]);
  }

  /** Replacing an item that contributes one output by one that contributes
      none removes exactly that output and keeps the others in order. */
  lemma FlatMapDropOne<T, U, E>(f: T -> Result<seq<U>, E>, xs: seq<T>, k: nat, y: T)
    requires k < |xs| && FlatMap(f, xs).Success?
    requires f(y) == Success([]) && |OutputOf(f(xs[k]))| == 1
    ensures var out := FlatMap(f, xs).value;
            var j := |FlatMap(f, xs[..k]).value|;
            j < |out| && FlatMap(f, xs[k := y]) == Success(out[..j] + out[j + 1..])
  {
    var ys := xs[k := y];
    assert ys[..k] == xs[..k] && ys[k + 1..] == xs[k + 1..] && ys[k] == y;
    FlatMapSplit(f, xs, k);
    FlatMapSplit(f, ys, k);
    ThenAround(FlatMap(f, xs[..k]), f(xs[k]), FlatMap(f, xs[k + 1..]), f(y));
  }

  /** Replacing the one-item middle run of three by an empty one removes
      exactly that item. */
  lemma ThenAround<U, E>(a: Result<seq<U>, E>, m: Result<seq<U>, E>, b: Result<seq<U>, E>, e: Result<seq<U>, E>)
    requires Then(Then(a, m), b).Success? && |OutputOf(m)| == 1 && e == Success([])
    ensures var out := Then(Then(a, m), b).value;
            a.Success? && |OutputOf(a)| < |out| &&
            Then(Then(a, e), b) == Success(out[..|OutputOf(a)|] + out[|OutputOf(a)| + 1..])
  {
    SliceAround(a.value, m.value, b.value);
    assert (a.value + []) + b.value == a.value + b.value;
  }

  lemma SliceAround<U>(a: seq<U>, m: seq<U>, b: seq<U>)
    requires |m| == 1
    ensures ((a + m) + b)[..|a|] == a && ((a + m) + b)[|a| + 1..] == b
  {
  }

  /** A step that yields zero or one item, as a step that yields a sequence. */
  function AsSeq<U, E>(r: Result<Option<U>, E>): Result<seq<U>, E> {
    match r
    case Failure(e) => Failure(e)
    case Success(None) => Success([])
    case Success(Some(u)) => Success([u])
  }

  /** An item is in the concatenation exactly when it is in one of the parts. */
  lemma {:induction false} ConcatMembers<U>(xss: seq<seq<U>>, u: U)
    ensures u in Concat(xss) <==> exists i :: 0 <= i < |xss| && u in xss[i]
    decreases |xss|
  {
    if |xss| > 0 {
      ConcatMembers(xss[1..], u);
      if u in Concat(xss[1..]) {
        var i :| 0 <= i < |xss[1..]| && u in xss[1..][i];
        assert u in xss[i + 1];
      }
      if exists i :: 1 <= i < |xss| && u in xss[i] {
        var i :| 1 <= i < |xss| && u in xss[i];
        assert u in xss[1..][i - 1];
      }
    }
  }

  /** Concatenating empty parts gives nothing. */
  lemma {:induction false} ConcatOfEmpties<U>(xss: seq<seq<U>>)
    requires forall i :: 0 <= i < |xss| ==> xss[i] == []
    ensures Concat(xss) == []
    decreases |xss|
  {
    if |xss| > 0 {
      ConcatOfEmpties(xss[1..]);
    }
  }

  /** Concatenating one-item parts lists those items in order. */
  lemma {:induction false} ConcatSingletons<U>(xss: seq<seq<U>>)
    requires forall i :: 0 <= i < |xss| ==> |xss[i]| == 1
    ensures |Concat(xss)| == |xss|
    ensures forall i :: 0 <= i < |xss| ==> Concat(xss)[i] == xss[i][0]
    decreases |xss|
  {
    if |xss| > 0 {
      ConcatSingletons(xss[1..]);
      assert Concat(xss) == xss[0] + Concat(xss[1..]);
      forall i | 1 <= i < |xss|
        ensures Concat(xss)[i] == xss[i][0]
      {
        assert Concat(xss)[i] == Concat(xss[1..])[i - 1];
        assert xss[1..][i - 1] == xss[i];
      }
    }
  }
}
