/** The loader's check that the dependencies between services have no cycle
    (src/platform/linux/link_load/cos_loader.c). */
module LoaderDag {
  import opened Seqs

  /** Service x is k dependencies away from service s. */
  ghost predicate Reaches(deps: seq<seq<nat>>, s: nat, x: nat, k: nat)
    decreases k
  {
    if k == 0 then s == x && s < |deps|
    else s < |deps| && exists i :: 0 <= i < |deps[s]| && Reaches(deps, deps[s][i], x, k - 1)
  }

  ghost predicate WellFormed(deps: seq<seq<nat>>) {
    forall s, i :: 0 <= s < |deps| && 0 <= i < |deps[s]| ==> deps[s][i] < |deps|
  }

  ghost predicate Acyclic(deps: seq<seq<nat>>) {
    forall x: nat, k: nat :: Reaches(deps, x, x, k) ==> k == 0
  }

  /** Every chain of dependencies from s is at most `limit` long. */
  ghost predicate Within(deps: seq<seq<nat>>, s: nat, limit: int) {
    forall x: nat, k: nat :: Reaches(deps, s, x, k) ==> k <= limit
  }

  // ----- cycles and long chains

  lemma {:induction false} Joined(deps: seq<seq<nat>>, s: nat, x: nat, y: nat, j: nat, k: nat)
    requires Reaches(deps, s, x, j) && Reaches(deps, x, y, k)
    ensures Reaches(deps, s, y, j + k)
    decreases j
  {
    if j > 0 {
      var i :| 0 <= i < |deps[s]| && Reaches(deps, deps[s][i], x, j - 1);
      Joined(deps, deps[s][i], x, y, j - 1, k);
      assert Reaches(deps, deps[s][i], y, j + k - 1);
    }
  }

  /** A cycle makes chains of any length. */
  lemma {:induction false} Pumped(deps: seq<seq<nat>>, x: nat, k: nat, m: nat) returns (n: nat)
    requires Reaches(deps, x, x, k) && k > 0
    ensures n >= m && Reaches(deps, x, x, n)
    decreases m
  {
    if m <= k {
      n := k;
    } else {
      var r := Pumped(deps, x, k, m - k);
      Joined(deps, x, x, x, k, r);
      n := k + r;
    }
  }

  /** The services on a chain of dependencies. */
  ghost predicate IsChain(deps: seq<seq<nat>>, p: seq<nat>) {
    && (forall i :: 0 <= i < |p| ==> p[i] < |deps|)
    && (forall i :: 0 <= i < |p| - 1 ==> Reaches(deps, p[i], p[i + 1], 1))
  }

  lemma {:induction false} ChainOf(deps: seq<seq<nat>>, s: nat, x: nat, k: nat) returns (p: seq<nat>)
    requires Reaches(deps, s, x, k)
    ensures |p| == k + 1 && p[0] == s && IsChain(deps, p)
    decreases k
  {
    if k == 0 {
      p := [s];
    } else {
      var i :| 0 <= i < |deps[s]| && Reaches(deps, deps[s][i], x, k - 1);
      var q := ChainOf(deps, deps[s][i], x, k - 1);
      assert Reaches(deps, deps[s][i], deps[s][i], 0);
      assert Reaches(deps, s, deps[s][i], 1);
      p := [s] + q;
    }
  }

  lemma {:induction false} AlongChain(deps: seq<seq<nat>>, p: seq<nat>, i: nat, j: nat)
    requires IsChain(deps, p) && i <= j < |p|
    ensures Reaches(deps, p[i], p[j], j - i)
    decreases j - i
  {
    if i < j {
      AlongChain(deps, p, i + 1, j);
      Joined(deps, p[i], p[i + 1], p[j], 1, j - i - 1);
    }
  }

  /** More services on a chain than there are: one of them is there twice. */
  lemma LongChain(deps: seq<seq<nat>>, s: nat, x: nat, k: nat)
    requires Reaches(deps, s, x, k) && k >= |deps|
    ensures !Acyclic(deps)
  {
    var p := ChainOf(deps, s, x, k);
    if Distinct(p) {
      var all := seq(|deps|, i => i);
      DistinctCount(p);
      DistinctCount(all);
      assert forall y :: y in p ==> all[y] == y;
      SubsetSize(Elems(p), Elems(all));
    }
    var i, j :| 0 <= i < j < |p| && p[i] == p[j];
    AlongChain(deps, p, i, j);
  }

  /** The dependencies have no cycle exactly if no chain is longer than there are services. */
  lemma AcyclicIsShort(deps: seq<seq<nat>>)
    ensures Acyclic(deps) <==> forall s: nat :: s < |deps| ==> Within(deps, s, |deps|)
  {
    if Acyclic(deps) {
      forall s: nat, x: nat, k: nat | Reaches(deps, s, x, k)
        ensures k <= |deps|
      {
        if k >= |deps| {
          LongChain(deps, s, x, k);
        }
      }
    } else {
      var x: nat, k: nat :| Reaches(deps, x, x, k) && k != 0;
      var n := Pumped(deps, x, k, |deps| + 1);
      assert !Within(deps, x, |deps|);
    }
  }

  // ----- the depths that the search records

  /** The depths have been raised exactly as the chains of dependencies from s ask, if s is at depth cur. */
  ghost predicate Raised(deps: seq<seq<nat>>, s: nat, cur: int, was: seq<int>, now: seq<int>) {
    |was| == |now| == |deps| && forall x :: 0 <= x < |deps| ==> RaisedAt(deps, s, cur, x, was[x], now[x])
  }

  ghost predicate RaisedAt(deps: seq<seq<nat>>, s: nat, cur: int, x: nat, was: int, now: int) {
    && now >= was && (forall k: nat :: Reaches(deps, s, x, k) ==> cur + k <= now)
    && (now == was || exists k: nat :: Reaches(deps, s, x, k) && now == cur + k)
  }

  /** As Raised, for the first n dependencies of s. */
  ghost predicate RaisedBelow(deps: seq<seq<nat>>, s: nat, cur: int, n: nat, was: seq<int>, now: seq<int>) {
    && s < |deps| && n <= |deps[s]| && |was| == |now| == |deps|
    && forall x :: 0 <= x < |deps| ==> RaisedBelowAt(deps, s, cur, n, x, was[x], now[x])
  }

  ghost predicate RaisedBelowAt(deps: seq<seq<nat>>, s: nat, cur: int, n: nat, x: nat, was: int, now: int)
    requires s < |deps| && n <= |deps[s]|
  {
    && now >= was && (forall i, k: nat :: 0 <= i < n && Reaches(deps, deps[s][i], x, k) ==> cur + k <= now)
    && (now == was || exists i, k: nat :: 0 <= i < n && Reaches(deps, deps[s][i], x, k) && now == cur + k)
  }

  lemma RaiseNext(deps: seq<seq<nat>>, s: nat, cur: int, n: nat, was: seq<int>, mid: seq<int>, now: seq<int>)
    requires RaisedBelow(deps, s, cur, n, was, mid) && n < |deps[s]| && Raised(deps, deps[s][n], cur, mid, now)
    ensures RaisedBelow(deps, s, cur, n + 1, was, now)
  {
    forall x | 0 <= x < |deps|
      ensures RaisedBelowAt(deps, s, cur, n + 1, x, was[x], now[x])
    {
      assert RaisedBelowAt(deps, s, cur, n, x, was[x], mid[x]);
      assert RaisedAt(deps, deps[s][n], cur, x, mid[x], now[x]);
    }
  }

  /** The chains from s are s itself and those from its dependencies. */
  lemma RaiseAll(deps: seq<seq<nat>>, s: nat, cur: int, was: seq<int>, now: seq<int>)
    requires s < |deps| && |was| == |deps|
    requires RaisedBelow(deps, s, cur + 1, |deps[s]|, was[s := if cur > was[s] then cur else was[s]], now)
    ensures Raised(deps, s, cur, was, now)
  {
    var mid := was[s := if cur > was[s] then cur else was[s]];
    forall x | 0 <= x < |deps|
      ensures RaisedAt(deps, s, cur, x, was[x], now[x])
    {
      assert RaisedBelowAt(deps, s, cur + 1, |deps[s]|, x, mid[x], now[x]);
      forall k: nat | Reaches(deps, s, x, k)
        ensures cur + k <= now[x]
      {
        if k > 0 {
          var i :| 0 <= i < |deps[s]| && Reaches(deps, deps[s][i], x, k - 1);
          assert cur + 1 + (k - 1) <= now[x];
        }
      }
      if now[x] != mid[x] {
        var i, k: nat :| 0 <= i < |deps[s]| && Reaches(deps, deps[s][i], x, k) && now[x] == cur + 1 + k;
        assert Reaches(deps, s, x, k + 1);
      } else if mid[x] != was[x] {
        assert Reaches(deps, s, s, 0);
      }
    }
  }

  lemma WithinAll(deps: seq<seq<nat>>, s: nat, limit: nat)
    requires s < |deps| && forall i :: 0 <= i < |deps[s]| ==> Within(deps, deps[s][i], limit - 1)
    ensures Within(deps, s, limit)
  {
    forall x: nat, k: nat | Reaches(deps, s, x, k)
      ensures k <= limit
    {
      if k > 0 {
        var i :| 0 <= i < |deps[s]| && Reaches(deps, deps[s][i], x, k - 1);
        assert Within(deps, deps[s][i], limit - 1);
      }
    }
  }

  lemma NotWithin(deps: seq<seq<nat>>, s: nat, i: nat, limit: int)
    requires s < |deps| && i < |deps[s]| && !Within(deps, deps[s][i], limit - 1)
    ensures !Within(deps, s, limit)
  {
    var x: nat, k: nat :| Reaches(deps, deps[s][i], x, k) && k > limit - 1;
    assert Reaches(deps, s, x, k + 1);
  }

  /** The depth recorded for x is the length of the longest chain of dependencies that ends at x, among those
      that start at the first n services. */
  ghost predicate LongestFrom(deps: seq<seq<nat>>, n: nat, depth: seq<int>) {
    |depth| == |deps| && forall x :: 0 <= x < |deps| ==> LongestFromAt(deps, n, x, depth[x])
  }

  ghost predicate LongestFromAt(deps: seq<seq<nat>>, n: nat, x: nat, d: int) {
    && (forall s: nat, k: nat :: s < n && Reaches(deps, s, x, k) ==> k <= d)
    && (d == -1 || exists s: nat, k: nat :: s < n && Reaches(deps, s, x, k) && d == k)
  }

  lemma LongestNext(deps: seq<seq<nat>>, n: nat, was: seq<int>, now: seq<int>)
    requires LongestFrom(deps, n, was) && n < |deps| && Raised(deps, n, 0, was, now)
    ensures LongestFrom(deps, n + 1, now)
  {
    forall x | 0 <= x < |deps|
      ensures LongestFromAt(deps, n + 1, x, now[x])
    {
      assert LongestFromAt(deps, n, x, was[x]);
      assert RaisedAt(deps, n, 0, x, was[x], now[x]);
    }
  }

  class Loader {
    const deps: seq<seq<nat>>
    var depth: seq<int>

    constructor (deps: seq<seq<nat>>)
      ensures this.deps == deps && depth == seq(|deps|, i => -1)
    {
      this.deps := deps;
      depth := seq(|deps|, i => -1);
    }

    /** rec_verify_dag. */
    method RecVerifyDag(s: nat, cur: nat, max: nat) returns (ok: bool)
      requires WellFormed(deps) && s < |deps| && |depth| == |deps| && cur <= max + 1
      modifies this`depth
      ensures |depth| == |deps| && (ok <==> Within(deps, s, max - cur))
      ensures ok ==> Raised(deps, s, cur, old(depth), depth)
      decreases max + 1 - cur
    {
      hide Within;
      hide Raised;
      hide RaisedBelow;
      if cur > max {
        TooDeep(deps, s, max - cur);
        return false;
      }
      if cur > depth[s] {
        depth := depth[s := cur];
      }
      ghost var mid := depth;
      NoneRaised(deps, s, cur + 1, mid);
      assert mid == old(depth)[s := if cur > old(depth)[s] then cur else old(depth)[s]];
      for i := 0 to |deps[s]|
        invariant |depth| == |deps| && RaisedBelow(deps, s, cur + 1, i, mid, depth)
        invariant forall j :: 0 <= j < i ==> Within(deps, deps[s][j], max - cur - 1)
      {
        ghost var before := depth;
        ok := RecVerifyDag(deps[s][i], cur + 1, max);
        if !ok {
          NotWithin(deps, s, i, max - cur);
          return false;
        }
        RaiseNext(deps, s, cur + 1, i, mid, before, depth);
      }
      WithinAll(deps, s, max - cur);
      RaiseAll(deps, s, cur, old(depth), depth);
      ok := true;
    }

    /** verify_dependency_soundness: accepts exactly the dependencies without a cycle, and then records the length
        of the longest chain of dependencies that ends at each service. */
    method VerifyDependencySoundness() returns (ok: bool)
      requires WellFormed(deps) && depth == seq(|deps|, i => -1)
      modifies this`depth
      ensures ok <==> Acyclic(deps)
      ensures ok ==> LongestFrom(deps, |deps|, depth) && forall x :: 0 <= x < |deps| ==> depth[x] >= 0
    {
      hide Within;
      hide Raised;
      hide LongestFrom;
      hide Acyclic;
      AcyclicIsShort(deps);
      var cnt := |deps|;
      NoneLonger(deps, depth);
      for s := 0 to |deps|
        invariant |depth| == |deps| && LongestFrom(deps, s, depth)
        invariant forall t: nat :: t < s ==> Within(deps, t, |deps|)
      {
        ghost var before := depth;
        ok := RecVerifyDag(s, 0, cnt);
        if !ok {
          return false;
        }
        LongestNext(deps, s, before, depth);
      }
      AllReachThemselves(deps, depth);
      ok := true;
    }
  }

  lemma TooDeep(deps: seq<seq<nat>>, s: nat, limit: int)
    requires s < |deps| && limit < 0
    ensures !Within(deps, s, limit)
  {
    assert Reaches(deps, s, s, 0);
  }

  lemma NoneRaised(deps: seq<seq<nat>>, s: nat, cur: int, depth: seq<int>)
    requires s < |deps| && |depth| == |deps|
    ensures RaisedBelow(deps, s, cur, 0, depth, depth)
  {
  }

  lemma NoneLonger(deps: seq<seq<nat>>, depth: seq<int>)
    requires |depth| == |deps| && forall x :: 0 <= x < |deps| ==> depth[x] == -1
    ensures LongestFrom(deps, 0, depth)
  {
  }

  lemma AllReachThemselves(deps: seq<seq<nat>>, depth: seq<int>)
    requires LongestFrom(deps, |deps|, depth)
    ensures |depth| == |deps| && forall x :: 0 <= x < |deps| ==> depth[x] >= 0
  {
    forall x | 0 <= x < |deps|
      ensures depth[x] >= 0
    {
      assert LongestFromAt(deps, |deps|, x, depth[x]);
      assert Reaches(deps, x, x, 0);
    }
  }
}
