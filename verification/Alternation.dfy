/** Seven components on which the last loop of customize_overhead_to_limit (src/components/include/mpd_policy.h) need
    not end.  Two placements lead to each other: what is merged from either is the same, and two domains of it have a
    cut of the same least weight.  A heap of domains that puts the one before the other that was not merged last makes
    the loop go back and forth for ever; the test for a loop does not notice, since the cheapest split has another
    weight in either placement.  A call of the function with every component in a domain of its own and a limit of 165
    comes there. */
module Alternation {
  import Cuts
  import opened Policy
  import opened Trades
  import opened Customizing

  function Seven(): seq<Cuts.Edge> {
    [Cuts.Edge(0, 1, 42), Cuts.Edge(0, 3, 24), Cuts.Edge(0, 5, 49), Cuts.Edge(1, 3, 53), Cuts.Edge(1, 4, 13),
     Cuts.Edge(1, 6, 26), Cuts.Edge(2, 4, 58), Cuts.Edge(2, 5, 15), Cuts.Edge(4, 5, 51)]
  }

  /** Every component in a domain of its own. */
  function Discrete(): map<nat, nat> {
    map[0 := 0, 1 := 1, 2 := 2, 3 := 3, 4 := 4, 5 := 5, 6 := 6]
  }

  /** {2, 4}, and the others alone. */
  function Pair(): map<nat, nat> {
    map[0 := 0, 1 := 1, 2 := 2, 3 := 3, 4 := 2, 5 := 5, 6 := 6]
  }

  /** {2, 4, 5}, and the others alone. */
  function Triple(): map<nat, nat> {
    map[0 := 0, 1 := 1, 2 := 2, 3 := 3, 4 := 2, 5 := 2, 6 := 6]
  }

  /** {0}, {1, 3}, {2, 4, 5}, {6}. */
  function First(): map<nat, nat> {
    map[0 := 0, 1 := 1, 2 := 2, 3 := 1, 4 := 2, 5 := 2, 6 := 6]
  }

  /** {0, 1, 3}, {2, 4}, {5}, {6}. */
  function Second(): map<nat, nat> {
    map[0 := 0, 1 := 0, 2 := 2, 3 := 0, 4 := 2, 5 := 4, 6 := 6]
  }

  /** {0, 1, 3}, {2, 4, 5}, {6}. */
  function Merged(): map<nat, nat> {
    map[0 := 0, 1 := 0, 2 := 2, 3 := 0, 4 := 2, 5 := 2, 6 := 6]
  }

  ghost function Weigh(e: Cuts.Edge, x: set<nat>, y: set<nat>): int {
    if Cuts.Joins(e, x, y) then e.inv else 0
  }

  lemma BetweenStep(es: seq<Cuts.Edge>, n: nat, x: set<nat>, y: set<nat>)
    requires n < |es|
    ensures Cuts.Between(es[..n + 1], x, y) == Cuts.Between(es[..n], x, y) + Weigh(es[n], x, y)
  {
    assert es[..n + 1][..n] == es[..n];
  }

  lemma BetweenNine(es: seq<Cuts.Edge>, x: set<nat>, y: set<nat>)
    requires |es| == 9
    ensures Cuts.Between(es, x, y)
            == Weigh(es[0], x, y) + Weigh(es[1], x, y) + Weigh(es[2], x, y) + Weigh(es[3], x, y) + Weigh(es[4], x, y)
               + Weigh(es[5], x, y) + Weigh(es[6], x, y) + Weigh(es[7], x, y) + Weigh(es[8], x, y)
  {
    assert es[..0] == [] && Cuts.Between(es[..0], x, y) == 0;
    hide Weigh;
    hide Cuts.Between;
    BetweenStep(es, 0, x, y);
    BetweenStep(es, 1, x, y);
    BetweenStep(es, 2, x, y);
    BetweenStep(es, 3, x, y);
    BetweenStep(es, 4, x, y);
    BetweenStep(es, 5, x, y);
    BetweenStep(es, 6, x, y);
    BetweenStep(es, 7, x, y);
    BetweenStep(es, 8, x, y);
    assert es[..9] == es;
  }

  lemma CostStep(es: seq<Cuts.Edge>, n: nat, pd: map<nat, nat>)
    requires n < |es|
    ensures Cost(es[..n + 1], pd) == Cost(es[..n], pd) + CostOf(es[n], pd)
  {
    assert es[..n + 1][..n] == es[..n];
  }

  lemma CostNine(es: seq<Cuts.Edge>, pd: map<nat, nat>)
    requires |es| == 9
    ensures Cost(es, pd) == CostOf(es[0], pd) + CostOf(es[1], pd) + CostOf(es[2], pd) + CostOf(es[3], pd)
              + CostOf(es[4], pd) + CostOf(es[5], pd) + CostOf(es[6], pd) + CostOf(es[7], pd) + CostOf(es[8], pd)
  {
    assert es[..0] == [] && Cost(es[..0], pd) == 0;
    hide CostOf;
    hide Cost;
    CostStep(es, 0, pd);
    CostStep(es, 1, pd);
    CostStep(es, 2, pd);
    CostStep(es, 3, pd);
    CostStep(es, 4, pd);
    CostStep(es, 5, pd);
    CostStep(es, 6, pd);
    CostStep(es, 7, pd);
    CostStep(es, 8, pd);
    assert es[..9] == es;
  }

  // ----- the weights of cuts

  lemma CutOf013(c: set<nat>)
    requires Cuts.IsCut({0, 1, 3}, c)
    ensures Cuts.CutWeight(Seven(), {0, 1, 3}, c) >= 66
  {
    BetweenNine(Seven(), c, {0, 1, 3} - c);
    assert exists x :: x in c;
  }

  lemma CutOf245(c: set<nat>)
    requires Cuts.IsCut({2, 4, 5}, c)
    ensures Cuts.CutWeight(Seven(), {2, 4, 5}, c) >= 66
  {
    BetweenNine(Seven(), c, {2, 4, 5} - c);
    assert exists x :: x in c;
  }

  lemma CutOf13(c: set<nat>)
    requires Cuts.IsCut({1, 3}, c)
    ensures Cuts.CutWeight(Seven(), {1, 3}, c) == 53
  {
    BetweenNine(Seven(), c, {1, 3} - c);
    assert exists x :: x in c;
  }

  lemma CutOf24(c: set<nat>)
    requires Cuts.IsCut({2, 4}, c)
    ensures Cuts.CutWeight(Seven(), {2, 4}, c) == 58
  {
    BetweenNine(Seven(), c, {2, 4} - c);
    assert exists x :: x in c;
  }

  lemma NoCutOfOne(x: nat, c: set<nat>)
    ensures !Cuts.IsCut({x}, c) && !Cuts.IsCut({}, c)
  {
    if c <= {x} && c != {} {
      var y :| y in c;
      assert c == {x};
    }
  }

  lemma LightestInMerged()
    ensures Lightest(Seven(), Merged(), 2, {5}) && Lightest(Seven(), Merged(), 0, {1, 3})
    ensures Cuts.CutWeight(Seven(), Part(Merged(), 2), {5}) == 66
  {
    assert Part(Merged(), 0) == {0, 1, 3} && Part(Merged(), 2) == {2, 4, 5} && Part(Merged(), 6) == {6};
    BetweenNine(Seven(), {5}, {2, 4, 5} - {5});
    BetweenNine(Seven(), {1, 3}, {0, 1, 3} - {1, 3});
    assert forall d: nat :: d != 0 && d != 2 && d != 6 ==> Part(Merged(), d) == {};
    forall d: nat, c | Cuts.IsCut(Part(Merged(), d), c)
      ensures Cuts.CutWeight(Seven(), Part(Merged(), d), c) >= 66
    {
      hide Cuts.CutWeight;
      if d == 0 {
        CutOf013(c);
      } else if d == 2 {
        CutOf245(c);
      } else if d == 6 {
        NoCutOfOne(6, c);
      }
    }
  }

  lemma LightestInFirst()
    ensures LeastCost(Seven(), First(), 53)
  {
    assert Part(First(), 0) == {0} && Part(First(), 1) == {1, 3};
    assert Part(First(), 2) == {2, 4, 5} && Part(First(), 6) == {6};
    hide Cuts.CutWeight;
    assert Cuts.IsCut({1, 3}, {1});
    CutOf13({1});
    assert forall d: nat :: d > 2 && d != 6 ==> Part(First(), d) == {};
    forall d: nat, c | Cuts.IsCut(Part(First(), d), c)
      ensures Cuts.CutWeight(Seven(), Part(First(), d), c) >= 53
    {
      if d == 1 {
        CutOf13(c);
      } else if d == 2 {
        CutOf245(c);
      } else if d == 0 {
        NoCutOfOne(0, c);
      } else if d == 6 {
        NoCutOfOne(6, c);
      }
    }
    assert Lightest(Seven(), First(), 1, {1});
  }

  lemma LightestInSecond()
    ensures LeastCost(Seven(), Second(), 58)
  {
    assert Part(Second(), 0) == {0, 1, 3} && Part(Second(), 2) == {2, 4} && Part(Second(), 6) == {6};
    assert Part(Second(), 4) == {5};
    hide Cuts.CutWeight;
    assert Cuts.IsCut({2, 4}, {2});
    CutOf24({2});
    assert forall d: nat :: d == 1 || d == 3 || d == 5 || d > 6 ==> Part(Second(), d) == {};
    forall d: nat, c | Cuts.IsCut(Part(Second(), d), c)
      ensures Cuts.CutWeight(Seven(), Part(Second(), d), c) >= 58
    {
      if d == 0 {
        CutOf013(c);
      } else if d == 2 {
        CutOf24(c);
      } else if d == 6 {
        NoCutOfOne(6, c);
      } else if d == 4 {
        NoCutOfOne(5, c);
      }
    }
    assert Lightest(Seven(), Second(), 2, {2});
  }

  // ----- what merges save

  lemma SavingInFirst(a: nat, b: nat)
    requires Domains(First(), a, b) && Cost(Seven(), First()) == 154
    ensures Saving(Seven(), First(), a, b) <= 66
  {
    CostNine(Seven(), MergedPlacement(First(), a, b));
    hide Cost;
    assert (a <= 2 || a == 6) && (b <= 2 || b == 6);
  }

  lemma SavingInSecond(a: nat, b: nat)
    requires Domains(Second(), a, b) && Cost(Seven(), Second()) == 154
    ensures Saving(Seven(), Second(), a, b) <= 66
  {
    CostNine(Seven(), MergedPlacement(Second(), a, b));
    hide Cost;
    assert a in {0, 2, 4, 6} && b in {0, 2, 4, 6};
  }

  lemma HeaviestInFirst()
    ensures Heaviest(Seven(), First(), 0, 1) && Saving(Seven(), First(), 0, 1) == 66 && Cost(Seven(), First()) == 154
  {
    CostNine(Seven(), First());
    CostNine(Seven(), MergedPlacement(First(), 0, 1));
    hide Cost;
    assert 0 in Part(First(), 0) && 1 in Part(First(), 1);
    forall a, b | Domains(First(), a, b)
      ensures Saving(Seven(), First(), a, b) <= 66
    {
      SavingInFirst(a, b);
    }
  }

  lemma HeaviestInSecond()
    ensures Heaviest(Seven(), Second(), 2, 4) && Saving(Seven(), Second(), 2, 4) == 66 && Cost(Seven(), Second()) == 154
  {
    CostNine(Seven(), Second());
    CostNine(Seven(), MergedPlacement(Second(), 2, 4));
    hide Cost;
    assert 2 in Part(Second(), 2) && 5 in Part(Second(), 4);
    forall a, b | Domains(Second(), a, b)
      ensures Saving(Seven(), Second(), a, b) <= 66
    {
      SavingInSecond(a, b);
    }
  }

  lemma FromFirst()
    ensures MergedPlacement(First(), 0, 1) == Merged()
  {
    assert MergedPlacement(First(), 0, 1).Keys == Merged().Keys;
  }

  lemma FromSecond()
    ensures MergedPlacement(Second(), 2, 4) == Merged()
  {
    assert MergedPlacement(Second(), 2, 4).Keys == Merged().Keys;
  }

  lemma ToFirst()
    ensures Relocated(Merged(), {1, 3}, 1) == First()
  {
    assert Relocated(Merged(), {1, 3}, 1).Keys == First().Keys;
  }

  lemma ToSecond()
    ensures Relocated(Merged(), {5}, 4) == Second()
  {
    assert Relocated(Merged(), {5}, 4).Keys == Second().Keys;
  }

  lemma Most(pd: map<nat, nat>, a: nat, b: nat, w: int)
    requires Heaviest(Seven(), pd, a, b) && Saving(Seven(), pd, a, b) == w
    ensures MostSaving(Seven(), pd, w)
  {
  }

  /** A round leads from either placement to the other, or back to itself: the merge that saves most gives the same
      placement, where two domains have a cut of the least weight, one of which was just merged; after either split
      no further one fits, and the cheapest one has another weight. */
  lemma Alternates()
    ensures Heaviest(Seven(), First(), 0, 1) && MergedPlacement(First(), 0, 1) == Merged()
    ensures Heaviest(Seven(), Second(), 2, 4) && MergedPlacement(Second(), 2, 4) == Merged()
    ensures Lightest(Seven(), Merged(), 0, {1, 3}) && Relocated(Merged(), {1, 3}, 1) == First()
    ensures Lightest(Seven(), Merged(), 2, {5}) && Relocated(Merged(), {5}, 4) == Second()
    ensures Cost(Seven(), First()) == Cost(Seven(), Second()) == 154
    ensures NoSplitFits(Seven(), First(), Cost(Seven(), First()), 165)
    ensures NoSplitFits(Seven(), Second(), Cost(Seven(), Second()), 165)
    ensures LeastCost(Seven(), First(), 53) && LeastCost(Seven(), Second(), 58)
    ensures MostSaving(Seven(), First(), 66) && MostSaving(Seven(), Second(), 66)
    ensures !NoTradePays(Seven(), First()) && !NoTradePays(Seven(), Second())
    ensures !SameTrade(Seven(), First(), Second()) && !SameTrade(Seven(), Second(), First())
  {
    hide *;
    FromFirst();
    FromSecond();
    ToFirst();
    ToSecond();
    HeaviestInFirst();
    HeaviestInSecond();
    LightestInMerged();
    LightestInFirst();
    LightestInSecond();
    LeastTooHeavy(First(), 53);
    LeastTooHeavy(Second(), 58);
    Most(First(), 0, 1, 66);
    Most(Second(), 2, 4, 66);
    TradePays(Seven(), First(), 53, 66);
    TradePays(Seven(), Second(), 58, 66);
    OtherPrice(Seven(), First(), Second(), 53, 58);
    OtherPrice(Seven(), Second(), First(), 58, 53);
  }

  lemma LeastTooHeavy(pd: map<nat, nat>, w: int)
    requires LeastCost(Seven(), pd, w) && Cost(Seven(), pd) + w >= 165
    ensures NoSplitFits(Seven(), pd, Cost(Seven(), pd), 165)
  {
  }

  // ----- the way there

  lemma SavingInDiscrete(a: nat, b: nat)
    requires Domains(Discrete(), a, b) && Cost(Seven(), Discrete()) == 331
    ensures Saving(Seven(), Discrete(), a, b) <= 58
  {
    CostNine(Seven(), MergedPlacement(Discrete(), a, b));
    hide Cost;
    assert a <= 6 && b <= 6;
  }

  lemma ToPair()
    ensures BestMerge(Seven(), Discrete(), Pair()) && Cost(Seven(), Discrete()) == 331
  {
    CostNine(Seven(), Discrete());
    CostNine(Seven(), MergedPlacement(Discrete(), 2, 4));
    hide Cost;
    assert 2 in Part(Discrete(), 2) && 4 in Part(Discrete(), 4);
    forall a, b | Domains(Discrete(), a, b)
      ensures Saving(Seven(), Discrete(), a, b) <= 58
    {
      SavingInDiscrete(a, b);
    }
    assert MergedPlacement(Discrete(), 2, 4) == Pair();
    assert Heaviest(Seven(), Discrete(), 2, 4);
  }

  lemma SavingInPair(a: nat, b: nat)
    requires Domains(Pair(), a, b) && Cost(Seven(), Pair()) == 273
    ensures Saving(Seven(), Pair(), a, b) <= 66
  {
    CostNine(Seven(), MergedPlacement(Pair(), a, b));
    hide Cost;
    assert a <= 6 && b <= 6 && a != 4 && b != 4;
  }

  lemma ToTriple()
    ensures BestMerge(Seven(), Pair(), Triple()) && Cost(Seven(), Pair()) == 273
  {
    CostNine(Seven(), Pair());
    CostNine(Seven(), MergedPlacement(Pair(), 2, 5));
    hide Cost;
    assert 2 in Part(Pair(), 2) && 5 in Part(Pair(), 5);
    forall a, b | Domains(Pair(), a, b)
      ensures Saving(Seven(), Pair(), a, b) <= 66
    {
      SavingInPair(a, b);
    }
    assert MergedPlacement(Pair(), 2, 5) == Triple();
    assert Heaviest(Seven(), Pair(), 2, 5);
  }

  lemma SavingInTriple(a: nat, b: nat)
    requires Domains(Triple(), a, b) && Cost(Seven(), Triple()) == 207
    ensures Saving(Seven(), Triple(), a, b) <= 53
  {
    CostNine(Seven(), MergedPlacement(Triple(), a, b));
    hide Cost;
    assert a in {0, 1, 2, 3, 6} && b in {0, 1, 2, 3, 6};
  }

  lemma TripleToFirst()
    ensures BestMerge(Seven(), Triple(), First()) && Cost(Seven(), Triple()) == 207
  {
    CostNine(Seven(), Triple());
    CostNine(Seven(), MergedPlacement(Triple(), 1, 3));
    hide Cost;
    assert 1 in Part(Triple(), 1) && 3 in Part(Triple(), 3);
    forall a, b | Domains(Triple(), a, b)
      ensures Saving(Seven(), Triple(), a, b) <= 53
    {
      SavingInTriple(a, b);
    }
    assert MergedPlacement(Triple(), 1, 3) == First();
    assert Heaviest(Seven(), Triple(), 1, 3);
  }

  // ----- rounds without end

  lemma OneRound(pd: Placement, a: nat, b: nat, d: nat, s: set<nat>, n: nat, pd': Placement)
    requires Heaviest(Seven(), pd, a, b) && MergedPlacement(pd, a, b) == Merged()
    requires Lightest(Seven(), Merged(), d, s) && Unplaced(Merged(), n) && Relocated(Merged(), s, n) == pd'
    requires Cost(Seven(), pd') < 165 && NoSplitFits(Seven(), pd', Cost(Seven(), pd'), 165)
    ensures Round(Seven(), 165, pd, pd')
  {
    hide Heaviest;
    hide Lightest;
    hide Cost;
    hide NoSplitFits;
    hide MergedPlacement;
    hide Relocated;
    var m := Merged();
    hide Merged;
    assert BestMerge(Seven(), pd, m);
    assert CheapestSplit(Seven(), 165, m, pd');
    var ps := [m, pd'];
    assert ps[0] == m && ps[0 + 1] == pd';
    assert Splits(Seven(), 165, m, ps);
  }

  lemma BackAndForth()
    ensures Round(Seven(), 165, First(), Second()) && Round(Seven(), 165, Second(), First())
  {
    Alternates();
    assert Unplaced(Merged(), 1) && Unplaced(Merged(), 4);
    hide *;
    OneRound(First(), 0, 1, 2, {5}, 4, Second());
    OneRound(Second(), 2, 4, 0, {1, 3}, 1, First());
  }

  /** A run of the last loop of any length that is not at its end. */
  lemma {:induction false} LongRun(k: nat) returns (run: seq<Placement>)
    ensures |run| == k + 1 && run[0] == First() && Rounds(Seven(), 165, run) && !Ended(Seven(), run)
    ensures Last(run) == if k % 2 == 0 then First() else Second()
  {
    Alternates();
    hide *;
    if k == 0 {
      run := [First()];
      FirstOf(Seven(), 165, First());
    } else {
      BackAndForth();
      var before := LongRun(k - 1);
      var next := if k % 2 == 0 then First() else Second();
      RoundsAppend(Seven(), 165, before, next);
      run := before + [next];
    }
  }

  lemma ThreeMerges(bs: seq<Cuts.Edge>, limit: int, p: Placement, q: Placement, r: Placement, t: Placement)
    requires BestMerge(bs, p, q) && BestMerge(bs, q, r) && BestMerge(bs, r, t)
    requires Cost(bs, p) > limit && Cost(bs, q) > limit && Cost(bs, r) > limit && Cost(bs, t) <= limit
    ensures Merges(bs, limit, p, [p, q, r, t]) && Last([p, q, r, t]) == t
  {
    hide BestMerge;
    hide Cost;
    var ms := [p, q, r, t];
    forall i | 0 <= i < |ms| - 1
      ensures BestMerge(bs, ms[i], ms[i + 1]) && Cost(bs, ms[i]) > limit
    {
      assert i == 0 || i == 1 || i == 2;
    }
  }

  lemma NoSplits(bs: seq<Cuts.Edge>, limit: int, pd: Placement)
    requires NoSplitFits(bs, pd, Cost(bs, pd), limit)
    ensures Splits(bs, limit, pd, [pd]) && Last([pd]) == pd
  {
  }

  lemma Whole(bs: seq<Cuts.Edge>, limit: int, pd: Placement, ms: seq<Placement>, ps: seq<Placement>,
              run: seq<Placement>)
    requires Merges(bs, limit, pd, ms) && Splits(bs, limit, Last(ms), ps)
    requires Rounds(bs, limit, run) && run[0] == Last(ps)
    ensures Customizes(bs, limit, pd, ms, ps, run)
  {
  }

  /** A call with every component in a domain of its own may make any number of rounds and not be at its end. */
  lemma NeverEnds(k: nat)
    ensures exists ms, ps, run ::
              Customizes(Seven(), 165, Discrete(), ms, ps, run) && |run| > k && !Ended(Seven(), run)
  {
    hide *;
    Alternates();
    ToPair();
    ToTriple();
    TripleToFirst();
    ThreeMerges(Seven(), 165, Discrete(), Pair(), Triple(), First());
    NoSplits(Seven(), 165, First());
    var run := LongRun(k);
    Whole(Seven(), 165, Discrete(), [Discrete(), Pair(), Triple(), First()], [First()], run);
  }
}
