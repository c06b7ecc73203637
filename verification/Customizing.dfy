/** The loops of customize_overhead_to_limit in src/components/include/mpd_policy.h as relations between placements:
    which placements each can lead to, whatever the order of the heaps among equals, and how long its last one goes
    on. */
module Customizing {
  import opened Seqs
  import opened Arith
  import Cuts
  import opened PdEdges
  import opened Policy
  import opened Trades

  type Placement = map<nat, nat>

  ghost function Last(ps: seq<Placement>): Placement
    requires ps != []
  {
    ps[|ps| - 1]
  }

  // ----- the steps

  /** The merge that saves most. */
  ghost predicate BestMerge(bs: seq<Cuts.Edge>, pd: Placement, pd': Placement) {
    exists a, b :: Heaviest(bs, pd, a, b) && pd' == MergedPlacement(pd, a, b)
  }

  ghost predicate BestMerges(bs: seq<Cuts.Edge>, limit: int, ms: seq<Placement>) {
    ms != [] && forall i :: 0 <= i < |ms| - 1 ==> BestMerge(bs, ms[i], ms[i + 1]) && Cost(bs, ms[i]) > limit
  }

  /** The first loop: merges as long as the cost exceeds the limit. */
  ghost predicate Merges(bs: seq<Cuts.Edge>, limit: int, pd: Placement, ms: seq<Placement>) {
    BestMerges(bs, limit, ms) && ms[0] == pd && (Cost(bs, Last(ms)) <= limit || Cost(bs, Last(ms)) == 0)
  }

  ghost predicate Unplaced(pd: Placement, n: nat) {
    forall x :: x in pd ==> pd[x] != n
  }

  /** The split that costs least, if the cost stays below the limit. */
  ghost predicate CheapestSplit(bs: seq<Cuts.Edge>, limit: int, pd: Placement, pd': Placement) {
    exists d, s, n :: Lightest(bs, pd, d, s) && Unplaced(pd, n) && pd' == Relocated(pd, s, n) && Cost(bs, pd') < limit
  }

  ghost predicate CheapestSplits(bs: seq<Cuts.Edge>, limit: int, ps: seq<Placement>) {
    ps != [] && forall i :: 0 <= i < |ps| - 1 ==> CheapestSplit(bs, limit, ps[i], ps[i + 1])
  }

  /** The second loop, and the inner one of the last: splits as long as one fits. */
  ghost predicate Splits(bs: seq<Cuts.Edge>, limit: int, pd: Placement, ps: seq<Placement>) {
    CheapestSplits(bs, limit, ps) && ps[0] == pd && NoSplitFits(bs, Last(ps), Cost(bs, Last(ps)), limit)
  }

  /** A round of the last loop: a merge and the splits that fit then. */
  ghost predicate Round(bs: seq<Cuts.Edge>, limit: int, pd: Placement, pd': Placement) {
    exists m, ps :: BestMerge(bs, pd, m) && Splits(bs, limit, m, ps) && Last(ps) == pd'
  }

  /** The placements after each round of the last loop, as far as it has come: a trade pays before every round, and no
      round but the last leaves the prices of before. */
  ghost predicate Rounds(bs: seq<Cuts.Edge>, limit: int, run: seq<Placement>) {
    && run != []
    && (forall i :: 0 <= i < |run| - 1 ==> Round(bs, limit, run[i], run[i + 1]) && !NoTradePays(bs, run[i]))
    && (forall i :: 0 <= i < |run| - 2 ==> !SameTrade(bs, run[i], run[i + 1]))
  }

  /** The two ways out of the last loop. */
  ghost predicate Ended(bs: seq<Cuts.Edge>, run: seq<Placement>)
    requires run != []
  {
    NoTradePays(bs, Last(run)) || (|run| >= 2 && SameTrade(bs, run[|run| - 2], Last(run)))
  }

  /** All of customize_overhead_to_limit: `ms` are the placements of its first loop, `ps` those of its second, and `run`
      those of its last. */
  ghost predicate Customizes(bs: seq<Cuts.Edge>, limit: int, pd: Placement, ms: seq<Placement>, ps: seq<Placement>,
                             run: seq<Placement>) {
    && Merges(bs, limit, pd, ms) && Splits(bs, limit, Last(ms), ps)
    && Rounds(bs, limit, run) && run[0] == Last(ps)
  }

  ghost function DomainSet(pd: Placement): set<nat> {
    set x | x in pd :: pd[x]
  }

  /** Cost and number of domains are the same. */
  ghost predicate Exchange(bs: seq<Cuts.Edge>, pd: Placement, pd': Placement) {
    Cost(bs, pd) == Cost(bs, pd') && |DomainSet(pd)| == |DomainSet(pd')|
  }

  /** How many rounds were exchanges. */
  ghost function Exchanges(bs: seq<Cuts.Edge>, run: seq<Placement>): nat {
    if |run| < 2 then 0
    else Exchanges(bs, run[..|run| - 1]) + if Exchange(bs, run[|run| - 2], Last(run)) then 1 else 0
  }

  lemma FirstOf(bs: seq<Cuts.Edge>, limit: int, pd: Placement)
    ensures BestMerges(bs, limit, [pd]) && CheapestSplits(bs, limit, [pd]) && Rounds(bs, limit, [pd])
    ensures Last([pd]) == pd && Exchanges(bs, [pd]) == 0 && (Ended(bs, [pd]) <==> NoTradePays(bs, pd))
  {
  }

  lemma MergesAppend(bs: seq<Cuts.Edge>, limit: int, ms: seq<Placement>, pd: Placement)
    requires BestMerges(bs, limit, ms) && BestMerge(bs, Last(ms), pd) && Cost(bs, Last(ms)) > limit
    ensures BestMerges(bs, limit, ms + [pd]) && Last(ms + [pd]) == pd
  {
    hide BestMerge;
    var r := ms + [pd];
    forall i | 0 <= i < |r| - 1
      ensures BestMerge(bs, r[i], r[i + 1]) && Cost(bs, r[i]) > limit
    {
      assert i < |ms| - 1 ==> r[i] == ms[i] && r[i + 1] == ms[i + 1];
    }
  }

  lemma SplitsAppend(bs: seq<Cuts.Edge>, limit: int, ps: seq<Placement>, pd: Placement)
    requires CheapestSplits(bs, limit, ps) && CheapestSplit(bs, limit, Last(ps), pd)
    ensures CheapestSplits(bs, limit, ps + [pd]) && Last(ps + [pd]) == pd
  {
    hide CheapestSplit;
    var r := ps + [pd];
    forall i | 0 <= i < |r| - 1
      ensures CheapestSplit(bs, limit, r[i], r[i + 1])
    {
      assert i < |ps| - 1 ==> r[i] == ps[i] && r[i + 1] == ps[i + 1];
    }
  }

  lemma RoundsAppend(bs: seq<Cuts.Edge>, limit: int, run: seq<Placement>, pd: Placement)
    requires Rounds(bs, limit, run) && !Ended(bs, run) && Round(bs, limit, Last(run), pd)
    ensures Rounds(bs, limit, run + [pd]) && Last(run + [pd]) == pd
    ensures Ended(bs, run + [pd]) <==> NoTradePays(bs, pd) || SameTrade(bs, Last(run), pd)
    ensures Exchanges(bs, run + [pd]) == Exchanges(bs, run) + if Exchange(bs, Last(run), pd) then 1 else 0
  {
    hide Round;
    hide SameTrade;
    hide NoTradePays;
    hide Exchange;
    var r := run + [pd];
    forall i | 0 <= i < |r| - 1
      ensures Round(bs, limit, r[i], r[i + 1]) && !NoTradePays(bs, r[i])
    {
      assert i < |run| - 1 ==> r[i] == run[i] && r[i + 1] == run[i + 1];
    }
    forall i | 0 <= i < |r| - 2
      ensures !SameTrade(bs, r[i], r[i + 1])
    {
      assert r[i] == run[i] && r[i + 1] == run[i + 1];
    }
    assert r[..|r| - 1] == run;
  }

  // ----- the number of domains

  lemma MergedCount(pd: Placement, a: nat, b: nat)
    requires Domains(pd, a, b)
    ensures |DomainSet(MergedPlacement(pd, a, b))| == |DomainSet(pd)| - 1
  {
    var m := MergedPlacement(pd, a, b);
    var x, y :| x in Part(pd, a) && y in Part(pd, b);
    forall d | d in DomainSet(pd) && d != b
      ensures d in DomainSet(m)
    {
      var z :| z in pd && pd[z] == d;
      assert m[z] == d;
    }
    assert pd[x] == a && pd[y] == b;
    assert DomainSet(m) == DomainSet(pd) - {b};
  }

  lemma SplitCount(pd: Placement, d: nat, s: set<nat>, n: nat)
    requires Cuts.IsCut(Part(pd, d), s) && Unplaced(pd, n)
    ensures |DomainSet(Relocated(pd, s, n))| == |DomainSet(pd)| + 1
  {
    var r := Relocated(pd, s, n);
    var x :| x in s;
    var y :| y in Part(pd, d) && y !in s;
    assert r[x] == n && r[y] == d;
    forall e | e in DomainSet(pd)
      ensures e in DomainSet(r)
    {
      var z :| z in pd && pd[z] == e;
      assert z !in s ==> r[z] == e;
    }
    assert DomainSet(r) == DomainSet(pd) + {n};
    assert n !in DomainSet(pd);
  }

  lemma {:induction false} DomainsAtMost(pd: Placement)
    ensures |DomainSet(pd)| <= |pd.Keys|
  {
    if pd != map[] {
      var x :| x in pd;
      var r := pd - {x};
      DomainsAtMost(r);
      assert pd.Keys == r.Keys + {x};
      assert DomainSet(pd) == DomainSet(r) + {pd[x]} by {
        forall d | d in DomainSet(pd)
          ensures d in DomainSet(r) + {pd[x]}
        {
          var z :| z in pd && pd[z] == d;
          assert z != x ==> r[z] == d;
        }
      }
    }
  }

  lemma CheapestSplitFacts(bs: seq<Cuts.Edge>, limit: int, pd: Placement, pd': Placement)
    requires CheapestSplit(bs, limit, pd, pd') && Spans(bs, pd)
    ensures pd'.Keys == pd.Keys && Spans(bs, pd') && |DomainSet(pd')| == |DomainSet(pd)| + 1 && Cost(bs, pd') < limit
    ensures exists d, s :: Lightest(bs, pd, d, s) && Cost(bs, pd') == Cost(bs, pd) + Cuts.CutWeight(bs, Part(pd, d), s)
  {
    var d, s, n :| Lightest(bs, pd, d, s) && Unplaced(pd, n) && pd' == Relocated(pd, s, n) && Cost(bs, pd') < limit;
    SplitCount(pd, d, s, n);
    SplitAdds(bs, pd, d, s, n);
  }

  lemma {:induction false} SplitsCount(bs: seq<Cuts.Edge>, limit: int, ps: seq<Placement>)
    requires CheapestSplits(bs, limit, ps) && Spans(bs, ps[0])
    ensures Last(ps).Keys == ps[0].Keys && Spans(bs, Last(ps))
    ensures |DomainSet(Last(ps))| == |DomainSet(ps[0])| + |ps| - 1 && (|ps| > 1 ==> Cost(bs, Last(ps)) < limit)
    decreases |ps|
  {
    if |ps| > 1 {
      hide Spans;
      hide CheapestSplit;
      hide DomainSet;
      var q := ps[..|ps| - 1];
      assert forall i :: 0 <= i < |q| ==> q[i] == ps[i];
      SplitsCount(bs, limit, q);
      assert CheapestSplit(bs, limit, ps[|ps| - 2], ps[|ps| - 2 + 1]);
      CheapestSplitFacts(bs, limit, Last(q), Last(ps));
    }
  }

  // ----- what a round does

  /** If a trade pays, the merge that saves most saves something. */
  lemma PayingSaves(bs: seq<Cuts.Edge>, pd: Placement, a: nat, b: nat)
    requires Cuts.NonNegative(bs) && !NoTradePays(bs, pd) && Heaviest(bs, pd, a, b)
    ensures Saving(bs, pd, a, b) > 0
  {
    var inc, dec :| LeastCost(bs, pd, inc) && MostSaving(bs, pd, dec) && inc < dec;
    var d, c :| Lightest(bs, pd, d, c) && Cuts.CutWeight(bs, Part(pd, d), c) == inc;
    BetweenBounds(bs, c, Part(pd, d) - c);
    var a', b' :| Heaviest(bs, pd, a', b') && Saving(bs, pd, a', b') == dec;
  }

  /** Without a split, the limit was met exactly before. */
  lemma NoSplitAfter(bs: seq<Cuts.Edge>, limit: int, pd: Placement, a: nat, b: nat)
    requires Domains(pd, a, b) && Spans(bs, pd) && Cost(bs, pd) <= limit && Saving(bs, pd, a, b) > 0
    requires var m := MergedPlacement(pd, a, b); NoSplitFits(bs, m, Cost(bs, m), limit)
    ensures Cost(bs, pd) == limit
  {
    MergeCut(bs, pd, a, b);
  }

  /** With one, the cost is no more than it was, and if it is the same there is a tie between cuts or the split undoes
      the merge. */
  lemma OneSplitAfter(bs: seq<Cuts.Edge>, limit: int, pd: Placement, a: nat, b: nat, pd': Placement)
    requires Domains(pd, a, b) && Spans(bs, pd) && Saving(bs, pd, a, b) > 0
    requires CheapestSplit(bs, limit, MergedPlacement(pd, a, b), pd')
    ensures Cost(bs, pd') <= Cost(bs, pd)
    ensures Cost(bs, pd') == Cost(bs, pd) ==> SamePartition(pd, pd') || Tied(bs, MergedPlacement(pd, a, b))
  {
    hide Tied;
    hide SamePartition;
    var m := MergedPlacement(pd, a, b);
    MergeCut(bs, pd, a, b);
    var d, s, n :| Lightest(bs, m, d, s) && Unplaced(m, n) && pd' == Relocated(m, s, n) && Cost(bs, pd') < limit;
    assert Spans(bs, m);
    SplitAdds(bs, m, d, s, n);
    if Cost(bs, pd') == Cost(bs, pd) {
      ExchangeIsTie(bs, pd, a, b, d, s, n);
    }
  }

  ghost predicate SomeTie(bs: seq<Cuts.Edge>, keys: set<nat>) {
    exists m: Placement :: m.Keys == keys && Tied(bs, m)
  }

  /** A round before which a trade pays leaves the limit, and then there are more domains, or as many at no more cost;
      if the cost is the same too, there is a tie between cuts or the placement has the same partition. */
  lemma RoundGetsOn(bs: seq<Cuts.Edge>, limit: int, pd: Placement, pd': Placement)
    requires Cuts.NonNegative(bs) && Spans(bs, pd) && Cost(bs, pd) <= limit
    requires Round(bs, limit, pd, pd') && !NoTradePays(bs, pd)
    ensures pd'.Keys == pd.Keys && Spans(bs, pd') && Cost(bs, pd') < limit
    ensures NoSplitFits(bs, pd', Cost(bs, pd'), limit)
    ensures Cost(bs, pd) < limit ==>
              |DomainSet(pd')| > |DomainSet(pd)|
              || (|DomainSet(pd')| == |DomainSet(pd)| && Cost(bs, pd') <= Cost(bs, pd))
    ensures Exchange(bs, pd, pd') ==> SamePartition(pd, pd') || SomeTie(bs, pd.Keys)
  {
    hide Cost;
    hide DomainSet;
    hide NoTradePays;
    hide NoSplitFits;
    hide Tied;
    hide SamePartition;
    hide CheapestSplit;
    var m, ps :| BestMerge(bs, pd, m) && Splits(bs, limit, m, ps) && Last(ps) == pd';
    var a, b :| Heaviest(bs, pd, a, b) && m == MergedPlacement(pd, a, b);
    PayingSaves(bs, pd, a, b);
    hide Heaviest;
    MergedCount(pd, a, b);
    assert Spans(bs, m);
    SplitsCount(bs, limit, ps);
    if |ps| == 1 {
      NoSplitAfter(bs, limit, pd, a, b);
    } else if |ps| == 2 {
      assert CheapestSplit(bs, limit, ps[0], ps[0 + 1]);
      OneSplitAfter(bs, limit, pd, a, b, pd');
    }
  }

  // ----- how long the last loop goes on

  /** Falls with every round that is not an exchange, once the limit has been left. */
  ghost function Measure(bs: seq<Cuts.Edge>, pd: Placement): int {
    (|pd.Keys| - |DomainSet(pd)|) * (TotalWeight(bs) + 1) + Cost(bs, pd)
  }

  lemma MeasureBounds(bs: seq<Cuts.Edge>, pd: Placement)
    requires Cuts.NonNegative(bs)
    ensures 0 <= Measure(bs, pd) <= |pd.Keys| * (TotalWeight(bs) + 1) + TotalWeight(bs)
  {
    CostBounds(bs, pd);
    DomainsAtMost(pd);
    Mono(|pd.Keys|, |pd.Keys| - |DomainSet(pd)|, TotalWeight(bs) + 1);
  }

  lemma MeasureFalls(bs: seq<Cuts.Edge>, pd: Placement, pd': Placement)
    requires Cuts.NonNegative(bs) && pd'.Keys == pd.Keys
    requires || |DomainSet(pd')| > |DomainSet(pd)|
             || (|DomainSet(pd')| == |DomainSet(pd)| && Cost(bs, pd') <= Cost(bs, pd))
    ensures Measure(bs, pd') <= Measure(bs, pd)
    ensures !Exchange(bs, pd, pd') ==> Measure(bs, pd') < Measure(bs, pd)
  {
    CostBounds(bs, pd);
    CostBounds(bs, pd');
    var k, t := |pd.Keys|, TotalWeight(bs) + 1;
    if |DomainSet(pd')| > |DomainSet(pd)| {
      Mono(k - |DomainSet(pd)|, k - |DomainSet(pd')| + 1, t);
      assert (k - |DomainSet(pd')| + 1) * t == (k - |DomainSet(pd')|) * t + t;
    }
  }

  lemma EarlierRounds(bs: seq<Cuts.Edge>, limit: int, run: seq<Placement>)
    requires Rounds(bs, limit, run) && |run| >= 2
    ensures Rounds(bs, limit, run[..|run| - 1]) && Round(bs, limit, run[|run| - 2], Last(run))
    ensures !NoTradePays(bs, run[|run| - 2]) && !Ended(bs, run[..|run| - 1])
    ensures Exchanges(bs, run) == Exchanges(bs, run[..|run| - 1])
                                  + if Exchange(bs, run[|run| - 2], Last(run)) then 1 else 0
  {
    hide Exchange;
    hide Round;
    hide NoTradePays;
    hide SameTrade;
    var q, i := run[..|run| - 1], |run| - 2;
    assert forall i :: 0 <= i < |q| ==> q[i] == run[i];
    assert Round(bs, limit, run[i], run[i + 1]);
    assert i > 0 ==> !SameTrade(bs, run[i - 1], run[i - 1 + 1]);
  }

  /** Every placement of a run has the components of the first and costs no more than the limit; from the second on
      less. */
  lemma {:induction false} WithinLimit(bs: seq<Cuts.Edge>, limit: int, run: seq<Placement>)
    requires Rounds(bs, limit, run) && Cuts.NonNegative(bs) && Spans(bs, run[0]) && Cost(bs, run[0]) <= limit
    ensures Last(run).Keys == run[0].Keys && Spans(bs, Last(run)) && Cost(bs, Last(run)) <= limit
    ensures |run| >= 2 ==> Cost(bs, Last(run)) < limit
    decreases |run|
  {
    if |run| >= 2 {
      EarlierRounds(bs, limit, run);
      hide Rounds;
      hide Round;
      hide NoTradePays;
      hide Spans;
      hide NoSplitFits;
      hide SamePartition;
      WithinLimit(bs, limit, run[..|run| - 1]);
      RoundGetsOn(bs, limit, run[|run| - 2], Last(run));
    }
  }

  /** Every run of the last loop, in every order of the heaps: the number of its rounds is bounded, but for the rounds
      that exchange a merge for a split of the same weight. */
  lemma {:induction false} RunBound(bs: seq<Cuts.Edge>, limit: int, run: seq<Placement>)
    requires Rounds(bs, limit, run) && Cuts.NonNegative(bs) && Spans(bs, run[0]) && Cost(bs, run[0]) <= limit
    ensures |run| <= |run[0].Keys| * (TotalWeight(bs) + 1) + TotalWeight(bs) + 2 + Exchanges(bs, run)
  {
    WithinLimit(bs, limit, run);
    if |run| == 1 {
      MeasureBounds(bs, run[0]);
    } else {
      MeasureFallsAll(bs, limit, run);
      MeasureBounds(bs, Last(run));
    }
  }

  lemma {:induction false} MeasureFallsAll(bs: seq<Cuts.Edge>, limit: int, run: seq<Placement>)
    requires Rounds(bs, limit, run) && Cuts.NonNegative(bs) && Spans(bs, run[0]) && Cost(bs, run[0]) <= limit
    requires |run| >= 2
    ensures |run| - 2 + Measure(bs, Last(run))
            <= |run[0].Keys| * (TotalWeight(bs) + 1) + TotalWeight(bs) + Exchanges(bs, run)
    decreases |run|
  {
    hide Rounds;
    hide Round;
    hide NoTradePays;
    hide Measure;
    hide NoSplitFits;
    hide SamePartition;
    hide Exchange;
    WithinLimit(bs, limit, run);
    if |run| == 2 {
      MeasureBounds(bs, Last(run));
    } else {
      var q := run[..|run| - 1];
      EarlierRounds(bs, limit, run);
      WithinLimit(bs, limit, q);
      MeasureFallsAll(bs, limit, q);
      RoundGetsOn(bs, limit, Last(q), Last(run));
      hide Spans;
      MeasureFalls(bs, Last(q), Last(run));
    }
  }

  /** Without a tie between cuts that weigh something, an exchange leaves the prices as they were, so that it is the
      last round. */
  lemma ExchangeEnds(bs: seq<Cuts.Edge>, limit: int, pd: Placement, pd': Placement)
    requires Cuts.NonNegative(bs) && Spans(bs, pd) && Cost(bs, pd) <= limit && Untied(bs, pd.Keys)
    requires Round(bs, limit, pd, pd') && !NoTradePays(bs, pd) && Exchange(bs, pd, pd')
    ensures SameTrade(bs, pd, pd')
  {
    hide Round;
    hide NoTradePays;
    hide Tied;
    hide SameTrade;
    RoundGetsOn(bs, limit, pd, pd');
    SamePartitionSameTrade(bs, pd, pd');
  }

  /** Without such a tie only the last round of a run can be an exchange. */
  lemma {:induction false} UntiedExchanges(bs: seq<Cuts.Edge>, limit: int, run: seq<Placement>)
    requires Rounds(bs, limit, run) && Cuts.NonNegative(bs) && Spans(bs, run[0]) && Cost(bs, run[0]) <= limit
    requires Untied(bs, run[0].Keys)
    ensures Exchanges(bs, run) <= if Ended(bs, run) then 1 else 0
    decreases |run|
  {
    if |run| >= 2 {
      var q := run[..|run| - 1];
      hide Exchanges;
      EarlierRounds(bs, limit, run);
      hide Rounds;
      hide Round;
      hide Untied;
      hide Spans;
      hide NoTradePays;
      hide SameTrade;
      hide Exchange;
      WithinLimit(bs, limit, q);
      UntiedExchanges(bs, limit, q);
      if Exchange(bs, Last(q), Last(run)) {
        ExchangeEnds(bs, limit, Last(q), Last(run));
      }
    }
  }

  /** Without such a tie the last loop ends, after a bounded number of rounds, in every order of the heaps. */
  lemma UntiedRunBound(bs: seq<Cuts.Edge>, limit: int, run: seq<Placement>)
    requires Rounds(bs, limit, run) && Cuts.NonNegative(bs) && Spans(bs, run[0]) && Cost(bs, run[0]) <= limit
    requires Untied(bs, run[0].Keys)
    ensures |run| <= |run[0].Keys| * (TotalWeight(bs) + 1) + TotalWeight(bs) + 3
  {
    hide *;
    RunBound(bs, limit, run);
    UntiedExchanges(bs, limit, run);
  }
}
