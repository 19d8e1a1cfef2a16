/**
  Trending scores, over exact reals.

  A request with v votes created at time c scores v / (t - c + 2)^1.5 at time t, in hours. Scores are
  compared through their squares v^2 / (t - c + 2)^3, which need no fractional power; ScoreOrder says
  why the comparison is the same.
*/
module Trending {

  function Square(x: real): real { x * x }

  function Cube(x: real): real { x * x * x }

  /** The age in hours plus two: the base of the power. */
  function Base(now: real, createdAt: real): real {
    now - createdAt + 2.0
  }

  // ----- Arithmetic -----

  lemma ProductPositive(x: real, y: real)
    requires x > 0.0 && y > 0.0
    ensures x * y > 0.0
  {
  }

  function Times(x: real, y: real): real { x * y }

  lemma TimesPositive(x: real, y: real)
    requires x > 0.0 && y > 0.0
    ensures Times(x, y) > 0.0
  {
  }

  lemma SquarePositive(x: real)
    requires x > 0.0
    ensures Square(x) > 0.0
  {
    TimesPositive(x, x);
    assert Times(x, x) == Square(x);
  }

  lemma CubePositive(x: real)
    requires x > 0.0
    ensures Cube(x) > 0.0
  {
    SquarePositive(x);
    ProductPositive(Square(x), x);
  }

  lemma SquareNotNegative(x: real)
    requires x >= 0.0
    ensures Square(x) >= 0.0
  {
  }

  /** Multiplying both sides by a positive factor. */
  lemma Scale(x: real, y: real, f: real)
    requires f > 0.0
    ensures x < y <==> x * f < y * f
  {
    if x < y {
      ProductPositive(y - x, f);
      assert (y - x) * f == y * f - x * f;
    } else if y < x {
      ProductPositive(x - y, f);
      assert (x - y) * f == x * f - y * f;
    }
  }

  lemma CubeMonotone(x: real, y: real)
    requires 0.0 < x < y
    ensures Cube(x) < Cube(y)
  {
    Scale(x, y, x);
    Scale(x, y, y);
    assert x * x < y * y;
    ProductPositive(x, x);
    Scale(x * x, y * y, x);
    ProductPositive(y, y);
    Scale(x, y, y * y);
    assert y * y * x == x * (y * y);
  }

  lemma SquareGrows(x: real, y: real)
    requires 0.0 <= x < y
    ensures Square(x) < Square(y)
  {
    SquarePositive(y);
    if x > 0.0 {
      Scale(x, y, y);
      Scale(x, y, x);
    }
  }

  lemma SquareMonotone(x: real, y: real)
    requires 0.0 <= x && 0.0 <= y
    ensures x < y <==> Square(x) < Square(y)
  {
    if x < y {
      SquareGrows(x, y);
    } else if y < x {
      SquareGrows(y, x);
    }
  }

  /** Comparing quotients by cross multiplication. */
  lemma CrossMultiply(a: real, p: real, b: real, q: real)
    requires p > 0.0 && q > 0.0
    ensures a / p < b / q <==> a * q < b * p
  {
    ProductPositive(p, q);
    Scale(a / p, b / q, p * q);
    assert a / p * (p * q) == a * q by { assert a / p * p == a; assert a / p * (p * q) == (a / p * p) * q; }
    assert b / q * (p * q) == b * p by { assert b / q * q == b; assert b / q * (p * q) == (b / q * q) * p; }
  }

  // ----- Comparing scores -----

  /** The square of the score. */
  function ScoreSquared(votes: nat, base: real): real
    requires base > 0.0
  {
    CubePositive(base);
    Square(votes as real) / Cube(base)
  }

  /** A scores below B. */
  predicate ScoresLess(votesA: nat, baseA: real, votesB: nat, baseB: real)
    requires baseA > 0.0 && baseB > 0.0
  {
    ScoreSquared(votesA, baseA) < ScoreSquared(votesB, baseB)
  }

  lemma SquareOfProduct(x: real, y: real)
    ensures Square(x * y) == Square(x) * Square(y)
  {
    assert (x * y) * (x * y) == (x * x) * (y * y);
  }

  /**
    Squares order scores as the scores themselves. Ages are in hours; pa and pb are the powers
    (age + 2)^1.5, the positive numbers whose squares are the cubes.
  */
  lemma ScoreOrder(votesA: nat, ageA: real, pa: real, votesB: nat, ageB: real, pb: real)
    requires ageA > -2.0 && pa > 0.0 && pa * pa == (ageA + 2.0) * (ageA + 2.0) * (ageA + 2.0)
    requires ageB > -2.0 && pb > 0.0 && pb * pb == (ageB + 2.0) * (ageB + 2.0) * (ageB + 2.0)
    ensures votesA as real / pa < votesB as real / pb
       <==> ScoreSquared(votesA, ageA + 2.0) < ScoreSquared(votesB, ageB + 2.0)
  {
    var a, b := votesA as real, votesB as real;
    var baseA, baseB := ageA + 2.0, ageB + 2.0;
    assert Square(pa) == Cube(baseA) && Square(pb) == Cube(baseB);
    CrossMultiply(a, pa, b, pb);
    CubePositive(baseA);
    CubePositive(baseB);
    CrossMultiply(Square(a), Cube(baseA), Square(b), Cube(baseB));
    SquareOfProduct(a, pb);
    SquareOfProduct(b, pa);
    assert a * pb >= 0.0 && b * pa >= 0.0;
    SquareMonotone(a * pb, b * pa);
  }

  /** The comparison without division. */
  lemma ScoresCross(votesA: nat, baseA: real, votesB: nat, baseB: real)
    requires baseA > 0.0 && baseB > 0.0
    ensures ScoresLess(votesA, baseA, votesB, baseB) <==>
      Square(votesA as real) * Cube(baseB) < Square(votesB as real) * Cube(baseA)
  {
    CubePositive(baseA);
    CubePositive(baseB);
    CrossMultiply(Square(votesA as real), Cube(baseA), Square(votesB as real), Cube(baseB));
  }

  /** With equal positive votes the younger request scores higher. */
  lemma YoungerScoresHigher(votes: nat, older: real, younger: real)
    requires votes > 0 && 0.0 < younger < older
    ensures ScoresLess(votes, older, votes, younger)
  {
    var s := Square(votes as real);
    SquarePositive(votes as real);
    CubeMonotone(younger, older);
    Scale(Cube(younger), Cube(older), s);
    ScoresCross(votes, older, votes, younger);
  }

  // ----- How two requests' scores cross as time goes by -----

  lemma CubesOrdered(p: real, q: real)
    requires 0.0 < p <= q
    ensures Cube(p) <= Cube(q)
  {
    if p < q {
      CubeMonotone(p, q);
    }
  }

  lemma RatioOfBases(x: real, y: real, d: real) returns (p: real, q: real)
    requires 0.0 < x <= y && d >= 0.0
    ensures p == (y + d) * x && q == (x + d) * y && 0.0 < p <= q
  {
    p, q := (y + d) * x, (x + d) * y;
    ProductPositive(y + d, x);
    assert q - p == d * (y - x);
    if d > 0.0 && y > x {
      ProductPositive(d, y - x);
    }
  }

  lemma CubeOfProduct(x: real, y: real, p: real)
    requires p == x * y
    ensures Cube(p) == Cube(x) * Cube(y)
  {
    assert (x * y) * (x * y) == (x * x) * (y * y);
    assert (x * x) * (y * y) * (x * y) == (x * x * x) * (y * y * y);
  }

  /** x and x + d are the bases of the newer and the older request; y is a later x. */
  lemma RatioGrows(x: real, y: real, d: real)
    requires 0.0 < x <= y && d >= 0.0
    ensures Cube(y + d) * Cube(x) <= Cube(x + d) * Cube(y)
  {
    hide *;
    var p, q := RatioOfBases(x, y, d);
    CubeOfProduct(y + d, x, p);
    CubeOfProduct(x + d, y, q);
    CubesOrdered(p, q);
  }

  lemma ScaleLe(x: real, y: real, f: real)
    requires f > 0.0
    ensures x <= y <==> x * f <= y * f
  {
    Scale(x, y, f);
    Scale(y, x, f);
  }

  /** From b * xd <= a * x and yd * x <= xd * y follows b * yd <= a * y. */
  lemma Chain(a: real, b: real, x: real, xd: real, y: real, yd: real)
    requires x > 0.0 && y > 0.0 && b >= 0.0
    requires b * xd <= a * x && yd * x <= xd * y
    ensures b * yd <= a * y
  {
    if b > 0.0 {
      ScaleLe(yd * x, xd * y, b);
    }
    ScaleLe(b * xd, a * x, y);
    assert b * yd * x == yd * x * b && xd * y * b == b * xd * y && a * x * y == a * y * x;
    ScaleLe(b * yd, a * y, x);
  }

  /**
    Single crossing: once an older request's score has reached a newer one's, with votes fixed, it
    never falls behind again. The older request is d hours older; x <= y are the newer one's bases.
  */
  lemma NeverFallsBehindAgain(votesOld: nat, votesNew: nat, d: real, x: real, y: real)
    requires 0.0 < x <= y && d >= 0.0
    requires !ScoresLess(votesOld, x + d, votesNew, x)
    ensures !ScoresLess(votesOld, y + d, votesNew, y)
  {
    hide *;
    var a, b := Square(votesOld as real), Square(votesNew as real);
    ScoresCross(votesOld, x + d, votesNew, x);
    ScoresCross(votesOld, y + d, votesNew, y);
    CubePositive(x);
    CubePositive(y);
    SquareNotNegative(votesNew as real);
    RatioGrows(x, y, d);
    Chain(a, b, Cube(x), Cube(x + d), Cube(y), Cube(y + d));
  }

  /** With votes no greater than the newer request's, the older one never catches up. */
  lemma NeverCatchesUp(votesOld: nat, votesNew: nat, d: real, x: real)
    requires 0.0 < x && d > 0.0 && votesOld <= votesNew && votesNew > 0
    ensures ScoresLess(votesOld, x + d, votesNew, x)
  {
    var a, b := Square(votesOld as real), Square(votesNew as real);
    ScoresCross(votesOld, x + d, votesNew, x);
    CubePositive(x);
    CubeMonotone(x, x + d);
    SquarePositive(votesNew as real);
    Scale(Cube(x), Cube(x + d), b);
    if votesOld < votesNew {
      SquareGrows(votesOld as real, votesNew as real);
      ScaleLe(a, b, Cube(x));
    }
  }

  /** (1 + u)^3 < 1 + 8u for 0 < u <= 1, scaled: u is d / x. */
  lemma CubeOfSum(x: real, d: real)
    requires 0.0 < d <= x
    ensures Cube(x + d) <= Cube(x) + 7.0 * (d * Square(x))
  {
    assert Cube(x + d) == Cube(x) + 3.0 * (d * Square(x)) + 3.0 * (d * d * x) + d * d * d;
    ScaleLe(d, x, d);
    ProductPositive(d, x);
    assert d * d <= d * x;
    ScaleLe(d * d, d * x, x);
    ScaleLe(d * d, d * x, d);
    assert d * x * x == d * Square(x);
    ScaleLe(d, x, d * x);
    assert d * d * d <= d * x * d && d * x * d == d * (d * x) && x * (d * x) == d * x * x;
  }

  lemma ZeroVotes(a: real, x: real, y: real)
    requires a > 0.0 && x > 0.0
    ensures Square(0.0) * Cube(y) < Square(a) * Cube(x)
  {
    SquarePositive(a);
    CubePositive(x);
    ProductPositive(Square(a), Cube(x));
    assert Square(0.0) == 0.0;
  }

  lemma Commute(x: real, y: real)
    ensures x * y == y * x
  {
  }

  lemma FourFactors(n: real, d: real, xx: real)
    ensures d * xx * Square(n) == (n * d) * (n * xx)
  {
  }

  lemma Expand(n: real, d: real, x: real)
    ensures (Cube(x) + 7.0 * (d * Square(x))) * Square(n) == Square(n) * Cube(x) + 7.0 * (n * d) * (n * Square(x))
    ensures 2.0 * x * (n * Square(x)) == 2.0 * n * Cube(x)
    ensures (Square(n) + 2.0 * n) * Cube(x) == Square(n) * Cube(x) + 2.0 * n * Cube(x)
  {
    FourFactors(n, d, Square(x));
    assert x * Square(x) == Cube(x);
    assert 2.0 * x * (n * Square(x)) == 2.0 * n * (x * Square(x));
  }

  lemma Overtake(a: real, n: real, d: real, x: real)
    requires n >= 1.0 && d > 0.0 && x > 0.0 && x >= 4.0 * n * d && a >= Square(n) + 2.0 * n
    ensures Square(n) * Cube(x + d) < a * Cube(x)
  {
    hide *;
    var b, nd, nxx := Square(n), n * d, n * Square(x);
    SquarePositive(n);
    SquarePositive(x);
    CubePositive(x);
    ProductPositive(n, Square(x));
    ProductPositive(n, d);
    ScaleLe(1.0, n, d);
    CubeOfSum(x, d);
    Expand(n, d, x);
    assert Cube(x + d) * b <= b * Cube(x) + 7.0 * nd * nxx by {
      ScaleLe(Cube(x + d), Cube(x) + 7.0 * (d * Square(x)), b);
    }
    assert 7.0 * nd < 2.0 * x by {
      assert 4.0 * n * d == 4.0 * nd;
    }
    assert 7.0 * nd * nxx < 2.0 * n * Cube(x) by {
      Scale(7.0 * nd, 2.0 * x, nxx);
    }
    assert b * Cube(x) + 2.0 * n * Cube(x) <= a * Cube(x) by {
      ScaleLe(b + 2.0 * n, a, Cube(x));
    }
    Commute(Cube(x + d), b);
  }

  lemma SquareOfSuccessor(m: nat, n: nat)
    requires m > n
    ensures Square(n as real) + 2.0 * (n as real) <= Square(m as real)
  {
    var p, q := m as real, n as real;
    assert p >= q + 1.0;
    assert Square(q + 1.0) == Square(q) + 2.0 * q + 1.0;
    if p > q + 1.0 {
      SquareGrows(q + 1.0, p);
    }
  }

  /**
    With strictly more votes the older request does overtake: at the latest when the newer one's age
    plus two is four times its votes times the difference in age (or at once, if it has no votes).
  */
  lemma EventuallyOvertakes(votesOld: nat, votesNew: nat, d: real, x: real)
    requires votesOld > votesNew && d > 0.0
    requires x > 0.0 && x >= 4.0 * (votesNew as real) * d
    ensures ScoresLess(votesNew, x, votesOld, x + d)
  {
    hide *;
    ScoresCross(votesNew, x, votesOld, x + d);
    if votesNew == 0 {
      ZeroVotes(votesOld as real, x, x + d);
    } else {
      SquareOfSuccessor(votesOld, votesNew);
      Overtake(Square(votesOld as real), votesNew as real, d, x);
    }
  }

  // ----- A recompute pass -----

  datatype RequestForScoring = RequestForScoring(id: nat, votes: nat, createdAt: real)

  /** The scores as stored, as squares. */
  type Scores = map<nat, real>

  ghost predicate Distinct(requests: seq<RequestForScoring>) {
    forall i, j :: 0 <= i < j < |requests| ==> requests[i].id != requests[j].id
  }

  /** The reading of the clock for each request comes after its creation by more than minus two hours. */
  ghost predicate ClockAfter(requests: seq<RequestForScoring>, clock: seq<real>) {
    |clock| == |requests| && forall i :: 0 <= i < |requests| ==> clock[i] - requests[i].createdAt > -2.0
  }

  /** Each request whose write takes effect has the score of its own instant. */
  ghost predicate ScoredBy(scores: Scores, requests: seq<RequestForScoring>, clock: seq<real>, lost: set<nat>)
    requires ClockAfter(requests, clock)
  {
    forall i :: 0 <= i < |requests| && requests[i].id !in lost ==>
      && requests[i].id in scores
      && scores[requests[i].id] == ScoreSquared(requests[i].votes, Base(clock[i], requests[i].createdAt))
  }

  /** The score squared, times the cube of the age plus two, is the square of the votes. */
  lemma ScoreSquaredIs(votes: nat, base: real)
    requires base > 0.0
    ensures ScoreSquared(votes, base) * (base * base * base) == (votes as real) * (votes as real)
  {
    CubePositive(base);
    assert Square(votes as real) / Cube(base) * Cube(base) == Square(votes as real);
  }

  /** What a pass stores, by the formula. */
  lemma StoredScores(scores: Scores, requests: seq<RequestForScoring>, clock: seq<real>, lost: set<nat>)
    requires ClockAfter(requests, clock) && ScoredBy(scores, requests, clock, lost)
    ensures forall i :: 0 <= i < |requests| && requests[i].id !in lost ==>
      var b, votes := clock[i] - requests[i].createdAt + 2.0, requests[i].votes as real;
      requests[i].id in scores && scores[requests[i].id] * (b * b * b) == votes * votes
  {
    hide ScoreSquared;
    forall i | 0 <= i < |requests| && requests[i].id !in lost
      ensures var b, votes := clock[i] - requests[i].createdAt + 2.0, requests[i].votes as real;
        requests[i].id in scores && scores[requests[i].id] * (b * b * b) == votes * votes
    {
      ScoreSquaredIs(requests[i].votes, clock[i] - requests[i].createdAt + 2.0);
    }
  }

  /** Stored scores order two requests as v / (age + 2)^1.5 does, each with its age at its own instant. */
  lemma StoredScoresOrder(scores: Scores, requests: seq<RequestForScoring>, clock: seq<real>, lost: set<nat>,
                          i: nat, pi: real, j: nat, pj: real)
    requires ClockAfter(requests, clock) && ScoredBy(scores, requests, clock, lost)
    requires i < |requests| && j < |requests| && requests[i].id !in lost && requests[j].id !in lost
    requires var b := clock[i] - requests[i].createdAt + 2.0; pi > 0.0 && pi * pi == b * b * b
    requires var b := clock[j] - requests[j].createdAt + 2.0; pj > 0.0 && pj * pj == b * b * b
    ensures scores[requests[i].id] < scores[requests[j].id]
       <==> requests[i].votes as real / pi < requests[j].votes as real / pj
  {
    hide Square, Cube, ScoreSquared;
    ScoreOrder(requests[i].votes, clock[i] - requests[i].createdAt, pi,
               requests[j].votes, clock[j] - requests[j].createdAt, pj);
  }

  class TrendingJob {
    var scores: Scores

    constructor ()
      ensures scores == map[]
    {
      scores := map[];
    }

    /** One pass; clock[i] is the time read for request i, and lost has the ids whose write takes no effect. */
    method Recompute(requests: seq<RequestForScoring>, clock: seq<real>, lost: set<nat>)
      requires Distinct(requests) && ClockAfter(requests, clock)
      modifies this
      ensures ScoredBy(scores, requests, clock, lost)
      ensures forall i :: 0 <= i < |requests| && requests[i].id !in lost ==>
        var b, votes := clock[i] - requests[i].createdAt + 2.0, requests[i].votes as real;
        requests[i].id in scores && scores[requests[i].id] * (b * b * b) == votes * votes
      ensures forall id :: id in lost || (forall i :: 0 <= i < |requests| ==> requests[i].id != id) ==>
        (id in scores <==> id in old(scores)) && (id in scores ==> scores[id] == old(scores)[id])
    {
      hide ScoreSquared;
      var i := 0;
      while i < |requests|
        invariant 0 <= i <= |requests|
        invariant ScoredBy(scores, requests[..i], clock[..i], lost)
        invariant forall id :: id in lost || (forall j :: 0 <= j < |requests| ==> requests[j].id != id) ==>
          (id in scores <==> id in old(scores)) && (id in scores ==> scores[id] == old(scores)[id])
      {
        var req := requests[i];
        var score := ScoreSquared(req.votes, Base(clock[i], req.createdAt));
        if req.id !in lost {
          scores := scores[req.id := score];
        }
        i := i + 1;
      }
      assert requests[..i] == requests && clock[..i] == clock;
      StoredScores(scores, requests, clock, lost);
    }
  }

  /**
    If a pass lasts at most e hours, two of its requests with equal positive votes that were created
    more than e hours apart end up ordered newest first, although each is scored at its own instant,
    and whatever becomes of the writes for other requests.
  */
  lemma PassOrdersEqualVotes(scores: Scores, requests: seq<RequestForScoring>, clock: seq<real>, lost: set<nat>,
                             e: real, i: nat, j: nat)
    requires ClockAfter(requests, clock) && ScoredBy(scores, requests, clock, lost)
    requires forall m, n :: 0 <= m < |clock| && 0 <= n < |clock| ==> clock[m] - clock[n] <= e
    requires i < |requests| && j < |requests| && requests[i].id !in lost && requests[j].id !in lost
    requires requests[i].votes == requests[j].votes > 0 && requests[i].createdAt + e < requests[j].createdAt
    ensures scores[requests[i].id] < scores[requests[j].id]
  {
    var older, younger := Base(clock[i], requests[i].createdAt), Base(clock[j], requests[j].createdAt);
    assert clock[j] - clock[i] <= e;
    YoungerScoresHigher(requests[i].votes, older, younger);
  }
}
