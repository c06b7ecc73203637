/** Brands and upcall threads (src/kernel/inv.c): activations of a brand run its upcall thread at once, later,
    or when the present execution of the upcall completes; the threads that upcalls interrupt form chains. */
module Upcalls {
  import opened Seqs

  datatype Thd = Thd(brand: Option<nat>, active: bool, ready: bool, preempted: bool)

  // ----- the chains of interrupted threads

  /** The links from upcalls to the threads they interrupted, and back, are inverse to each other. */
  ghost predicate Inverse(intr: map<nat, nat>, pre: map<nat, nat>) {
    && (forall x :: x in intr ==> intr[x] in pre && pre[intr[x]] == x)
    && (forall y :: y in pre ==> pre[y] in intr && intr[pre[y]] == y)
  }

  /** Without the links from and to t. */
  ghost function Cut(links: map<nat, nat>, t: nat): map<nat, nat> {
    map x | x in links && x != t && links[x] != t :: links[x]
  }

  lemma CutInverse(intr: map<nat, nat>, pre: map<nat, nat>, t: nat)
    requires Inverse(intr, pre)
    ensures Inverse(Cut(intr, t), Cut(pre, t))
  {
  }

  /** Two links at most are cut. */
  lemma CutLinks(intr: map<nat, nat>, pre: map<nat, nat>, t: nat)
    requires Inverse(intr, pre)
    ensures t in intr ==> intr[t] in pre && pre[intr[t]] == t
    ensures Cut(intr, t) == if t in pre then intr - {t} - {pre[t]} else intr - {t}
    ensures Cut(pre, t) == if t in intr then pre - {t} - {intr[t]} else pre - {t}
  {
  }

  lemma LinkInverse(intr: map<nat, nat>, pre: map<nat, nat>, u: nat, t: nat)
    requires Inverse(intr, pre) && u !in intr && t !in pre
    ensures Inverse(intr[u := t], pre[t := u])
  {
  }

  /** A thread interrupts only threads of a lower rank. */
  ghost predicate Ranked(intr: map<nat, nat>, rank: map<nat, nat>, clock: nat) {
    && (forall x :: x in rank ==> rank[x] < clock)
    && (forall x :: x in intr ==> x in rank && intr[x] in rank && rank[intr[x]] < rank[x])
  }

  lemma LinkRanked(intr: map<nat, nat>, rank: map<nat, nat>, clock: nat, u: nat, t: nat)
    requires Ranked(intr, rank, clock) && t in rank && u != t && u !in intr && forall x :: x in intr ==> intr[x] != u
    ensures Ranked(intr[u := t], rank[u := clock], clock + 1)
  {
  }

  /** A path along the interrupted links. */
  ghost predicate Chain(intr: map<nat, nat>, p: seq<nat>) {
    forall k :: 0 <= k < |p| - 1 ==> p[k] in intr && intr[p[k]] == p[k + 1]
  }

  /** No chain of interrupted threads comes back to where it started. */
  lemma {:induction false} Acyclic(intr: map<nat, nat>, rank: map<nat, nat>, clock: nat, p: seq<nat>)
    requires Ranked(intr, rank, clock) && Chain(intr, p) && |p| > 1
    ensures p[0] in rank && p[|p| - 1] in rank && rank[p[|p| - 1]] < rank[p[0]]
    ensures p[0] != p[|p| - 1]
    decreases |p|
  {
    assert p[0] in intr && intr[p[0]] == p[1];
    if |p| > 2 {
      Acyclic(intr, rank, clock, p[1..]);
    }
  }

  lemma CutRanked(intr: map<nat, nat>, rank: map<nat, nat>, clock: nat, t: nat)
    requires Ranked(intr, rank, clock)
    ensures Ranked(Cut(intr, t), rank, clock)
  {
  }

  // ----- the threads and their brands

  /** An upcall thread is either active or ready, and a ready one is in no chain. */
  ghost predicate StatesOk(ts: map<nat, Thd>, intr: map<nat, nat>, pre: map<nat, nat>) {
    && intr.Keys <= ts.Keys && pre.Keys <= ts.Keys
    && forall x :: x in ts ==> StateOk(ts[x]) && (ts[x].ready ==> x !in intr && x !in pre)
  }

  lemma CutStates(ts: map<nat, Thd>, intr: map<nat, nat>, pre: map<nat, nat>, t: nat)
    requires StatesOk(ts, intr, pre)
    ensures StatesOk(ts, Cut(intr, t), Cut(pre, t))
  {
  }

  lemma ChangeState(ts: map<nat, Thd>, intr: map<nat, nat>, pre: map<nat, nat>, t: nat, now: Thd)
    requires StatesOk(ts, intr, pre) && t in ts && StateOk(now) && (now.ready ==> t !in intr && t !in pre)
    ensures StatesOk(ts[t := now], intr, pre)
  {
  }

  ghost predicate StateOk(t: Thd) {
    (t.brand.Some? <==> t.active || t.ready) && !(t.active && t.ready) && !(t.ready && t.preempted)
  }

  ghost predicate BrandsOk(ts: map<nat, Thd>, upcallOf: map<nat, nat>) {
    && (forall b :: b in upcallOf ==> upcallOf[b] in ts && ts[upcallOf[b]].brand == Some(b))
    && (forall x :: x in ts && ts[x].brand.Some? ==> ts[x].brand.value in upcallOf && upcallOf[ts[x].brand.value] == x)
  }

  function Busy(ts: map<nat, Thd>, u: nat): nat {
    if u in ts && ts[u].active then 1 else 0
  }

  /** What has been activated and not completed is pending, or being executed. */
  ghost predicate Counted(ts: map<nat, Thd>, upcallOf: map<nat, nat>, pending: map<nat, nat>,
                          activations: map<nat, nat>, completions: map<nat, nat>)
  {
    && pending.Keys == activations.Keys == completions.Keys && upcallOf.Keys <= pending.Keys
    && forall b :: b in upcallOf ==> activations[b] == completions[b] + pending[b] + Busy(ts, upcallOf[b])
  }

  /** One brand's counts change together with the state of its upcall thread. */
  lemma CountStep(ts: map<nat, Thd>, upcallOf: map<nat, nat>, pending: map<nat, nat>, activations: map<nat, nat>,
                  completions: map<nat, nat>, b: nat, now: Thd, p: nat, a: nat, c: nat)
    requires BrandsOk(ts, upcallOf) && Counted(ts, upcallOf, pending, activations, completions)
    requires b in upcallOf && now.brand == Some(b) && a == c + p + if now.active then 1 else 0
    ensures var r := ts[upcallOf[b] := now];
            BrandsOk(r, upcallOf) && Counted(r, upcallOf, pending[b := p], activations[b := a], completions[b := c])
  {
    forall k | k in upcallOf && k != b
      ensures upcallOf[k] != upcallOf[b]
    {
      assert ts[upcallOf[k]].brand == Some(k);
    }
  }

  /** Other changes of a thread do not count. */
  lemma CountSame(ts: map<nat, Thd>, upcallOf: map<nat, nat>, pending: map<nat, nat>, activations: map<nat, nat>,
                  completions: map<nat, nat>, t: nat, now: Thd)
    requires BrandsOk(ts, upcallOf) && Counted(ts, upcallOf, pending, activations, completions)
    requires t in ts && now.brand == ts[t].brand && now.active == ts[t].active
    ensures BrandsOk(ts[t := now], upcallOf) && Counted(ts[t := now], upcallOf, pending, activations, completions)
  {
  }

  lemma NewThread(ts: map<nat, Thd>, upcallOf: map<nat, nat>, pending: map<nat, nat>, activations: map<nat, nat>,
                  completions: map<nat, nat>, t: nat)
    requires BrandsOk(ts, upcallOf) && Counted(ts, upcallOf, pending, activations, completions) && t !in ts
    ensures var r := ts[t := Thd(None, false, false, false)];
            BrandsOk(r, upcallOf) && Counted(r, upcallOf, pending, activations, completions)
  {
  }

  lemma NewInNoChain(ts: map<nat, Thd>, intr: map<nat, nat>, pre: map<nat, nat>, rank: map<nat, nat>, clock: nat,
                     t: nat)
    requires StatesOk(ts, intr, pre) && Ranked(intr, rank, clock) && rank.Keys == ts.Keys && t !in ts
    ensures StatesOk(ts[t := Thd(None, false, false, false)], intr, pre) && Ranked(intr, rank[t := clock], clock + 1)
  {
  }

  lemma AddBrand(ts: map<nat, Thd>, upcallOf: map<nat, nat>, pending: map<nat, nat>, activations: map<nat, nat>,
                 completions: map<nat, nat>, b: nat, t: nat)
    requires BrandsOk(ts, upcallOf) && Counted(ts, upcallOf, pending, activations, completions)
    requires b in pending && b !in upcallOf && t in ts && ts[t].brand.None?
    ensures var r := ts[t := ts[t].(brand := Some(b), active := true)];
            && BrandsOk(r, upcallOf[b := t])
            && Counted(r, upcallOf[b := t], pending, activations[b := pending[b] + 1], completions[b := 0])
  {
    forall k | k in upcallOf
      ensures upcallOf[k] != t
    {
      assert ts[upcallOf[k]].brand == Some(k);
    }
  }

  datatype Op =
    | DoBrand(b: nat, preempt: nat, urgent: bool)
    | DoComplete
    | DoSwitch(t: nat, finish: bool)
    | DoBreak(t: nat)
    | DoAddUpcall(b: nat, t: nat)
    | DoCreateBrand(b: nat)
    | DoCreateThread(t: nat)

  // ----- what each operation does

  /** The threads, the links from upcalls to the threads they interrupted and back, the pending requests, the upcall
      thread of each brand, and the current thread. */
  datatype State = State(thds: map<nat, Thd>, intr: map<nat, nat>, pre: map<nat, nat>, pending: map<nat, nat>,
                         upcallOf: map<nat, nat>, current: nat)

  /** The links are those of k, but for those of thread t. */
  ghost predicate Unlinked(k: State, t: nat, n: State) {
    n.intr == Cut(k.intr, t) && n.pre == Cut(k.pre, t)
  }

  ghost predicate SameLinks(k: State, n: State) {
    n.intr == k.intr && n.pre == k.pre
  }

  /** Only these threads have changed. */
  ghost predicate OthersSame(k: State, n: State, ts: set<nat>) {
    n.thds.Keys == k.thds.Keys && forall x :: x in k.thds && x !in ts ==> n.thds[x] == k.thds[x]
  }

  /** An activation of brand b.  It is counted if the upcall is active; otherwise the upcall becomes active, and runs at
      once exactly if it is urgent and the current thread has no preempter. */
  ghost predicate Branded(k: State, b: nat, preempt: nat, urgent: bool, n: State) {
    && b in k.upcallOf && k.upcallOf[b] in k.thds && b in k.pending && k.current in k.thds
    && var u, cur := k.upcallOf[b], k.current;
       if k.thds[u].active then n == k.(pending := k.pending[b := k.pending[b] + 1])
       else
         && n.pending == k.pending && n.upcallOf == k.upcallOf && OthersSame(k, n, {u, cur})
         && n.thds[u] == k.thds[u].(active := true, ready := false)
         && n.current == (if urgent && cur !in k.pre then u else cur)
         && n.thds[cur] == k.thds[cur].(preempted := n.current == u && preempt == 1)
         && if n.current == u then
              if preempt != 0 then n.intr == k.intr[u := cur] && n.pre == k.pre[cur := u] else SameLinks(k, n)
            else if !urgent && k.thds[cur].active then Unlinked(k, cur, n) else SameLinks(k, n)
  }

  /** The current thread, an upcall, is done: it starts again for a pending request; else it hands over to the thread
      that it interrupted; if there is none nothing happens here. */
  ghost predicate Completed(k: State, n: State) {
    && k.current in k.thds && k.thds[k.current].brand.Some? && k.thds[k.current].brand.value in k.pending
    && var b, cur := k.thds[k.current].brand.value, k.current;
       if k.pending[b] > 0 then n == k.(pending := k.pending[b := k.pending[b] - 1])
       else if cur !in k.intr then n == k
       else
         var back := k.intr[cur];
         && back in k.thds && back != cur && n.pending == k.pending && n.upcallOf == k.upcallOf
         && n.current == back && Unlinked(k, cur, n) && OthersSame(k, n, {cur, back})
         && n.thds[cur] == k.thds[cur].(active := false, ready := true)
         && n.thds[back] == k.thds[back].(preempted := false)
  }

  /** A switch to thread t is possible. */
  predicate MaySwitch(k: State, t: nat, finish: bool) {
    t in k.thds && t != k.current && !k.thds[t].ready && k.current in k.thds && (finish ==> k.thds[k.current].active)
  }

  /** A switch to thread t.  The thread that is left leaves its chain, and t one that it was preempted in; a thread that
      finishes starts again for a pending request instead, and otherwise is ready. */
  ghost predicate Switched(k: State, t: nat, finish: bool, n: State) {
    if !MaySwitch(k, t, finish) then n == k
    else
      var b, cur := k.thds[k.current].brand, k.current;
      && (finish ==> b.Some? && b.value in k.pending)
      && if finish && k.pending[b.value] > 0
         then n == k.(pending := k.pending[b.value := k.pending[b.value] - 1])
         else
           && n.pending == k.pending && n.upcallOf == k.upcallOf && n.current == t && OthersSame(k, n, {cur, t})
           && n.thds[cur] == (if finish then k.thds[cur].(active := false, ready := true) else k.thds[cur])
           && n.thds[t] == k.thds[t].(preempted := false)
           && if k.thds[t].preempted && t in k.pre && k.pre[t] != cur
              then n.intr == Cut(Cut(k.intr, cur), t) && n.pre == Cut(Cut(k.pre, cur), t) else Unlinked(k, cur, n)
  }

  /** Thread t, which leaves its chain, is the upcall thread of brand b, and active. */
  ghost predicate Added(k: State, b: nat, t: nat, n: State) {
    && t in k.thds && Unlinked(k, t, n) && n.upcallOf == k.upcallOf[b := t] && n.pending == k.pending
    && n.current == k.current && n.thds == k.thds[t := k.thds[t].(brand := Some(b), active := true)]
  }

  /** What an operation does; one that is not possible does nothing. */
  ghost predicate Stepped(k: State, op: Op, n: State) {
    match op
    case DoBrand(b, preempt, urgent) => if b in k.upcallOf then Branded(k, b, preempt, urgent, n) else n == k
    case DoComplete => if k.current in k.thds && k.thds[k.current].active then Completed(k, n) else n == k
    case DoSwitch(t, finish) => Switched(k, t, finish, n)
    case DoBreak(t) => Unlinked(k, t, n) && n == k.(intr := n.intr, pre := n.pre)
    case DoAddUpcall(b, t) =>
      if b in k.pending && b !in k.upcallOf && t in k.thds && k.thds[t].brand.None? then Added(k, b, t, n) else n == k
    case DoCreateBrand(b) => n == if b in k.pending then k else k.(pending := k.pending[b := 0])
    case DoCreateThread(t) =>
      n == if t in k.thds then k else k.(thds := k.thds[t := Thd(None, false, false, false)])
  }

  /** The states are those that the operations lead through. */
  ghost predicate IsRun(ks: seq<State>, ops: seq<Op>) {
    |ks| == |ops| + 1 && forall i :: 0 <= i < |ops| ==> Stepped(ks[i], ops[i], ks[i + 1])
  }

  lemma LongerRun(ks: seq<State>, ops: seq<Op>, i: nat, n: State)
    requires i < |ops| && |ks| == i + 1 && IsRun(ks, ops[..i]) && Stepped(ks[i], ops[i], n)
    ensures IsRun(ks + [n], ops[..i + 1])
  {
    hide Stepped;
    forall j | 0 <= j < i + 1
      ensures Stepped((ks + [n])[j], ops[..i + 1][j], (ks + [n])[j + 1])
    {
      assert j < i ==> ops[..i][j] == ops[j] && Stepped(ks[j], ops[..i][j], ks[j + 1]);
    }
  }

  class UpcallKernel {
    var thds: map<nat, Thd>
    var intr: map<nat, nat>
    var pre: map<nat, nat>
    var pending: map<nat, nat>
    var upcallOf: map<nat, nat>
    var current: nat
    ghost var rank: map<nat, nat>
    ghost var clock: nat
    ghost var activations: map<nat, nat>
    ghost var completions: map<nat, nat>

    ghost function View(): State
      reads this`thds, this`intr, this`pre, this`pending, this`upcallOf, this`current
    {
      State(thds, intr, pre, pending, upcallOf, current)
    }

    ghost predicate LinksOk()
      reads this`thds, this`intr, this`pre, this`rank, this`clock
    {
      Inverse(intr, pre) && Ranked(intr, rank, clock) && StatesOk(thds, intr, pre) && rank.Keys == thds.Keys
    }

    ghost predicate CountsOk()
      reads this`thds, this`upcallOf, this`pending, this`activations, this`completions
    {
      BrandsOk(thds, upcallOf) && Counted(thds, upcallOf, pending, activations, completions)
    }

    ghost predicate Valid()
      reads this
    {
      LinksOk() && CountsOk() && current in thds && !thds[current].preempted && !thds[current].ready
    }

    /** A kernel with one thread and no brands. */
    constructor (t: nat)
      ensures Valid() && thds.Keys == {t} && current == t && pending == map[]
    {
      thds := map[t := Thd(None, false, false, false)];
      intr, pre, pending, upcallOf, current := map[], map[], map[], map[], t;
      rank, clock, activations, completions := map[t := 0], 1, map[], map[];
    }

    lemma CutKeeps(t: nat)
      requires LinksOk()
      ensures Inverse(Cut(intr, t), Cut(pre, t)) && Ranked(Cut(intr, t), rank, clock)
      ensures StatesOk(thds, Cut(intr, t), Cut(pre, t))
    {
      CutInverse(intr, pre, t);
      CutRanked(intr, rank, clock, t);
      CutStates(thds, intr, pre, t);
    }

    /** break_preemption_chain: the thread leaves its chain. */
    method BreakChain(t: nat)
      requires LinksOk()
      modifies this`intr, this`pre
      ensures LinksOk() && intr == Cut(old(intr), t) && pre == Cut(old(pre), t)
    {
      hide Inverse;
      hide Ranked;
      hide StatesOk;
      hide Cut;
      CutKeeps(t);
      CutLinks(intr, pre, t);
      if t in intr {
        var other := intr[t];
        assert other in pre && pre[other] == t;
        intr := intr - {t};
        pre := pre - {other};
      }
      if t in pre {
        var other := pre[t];
        pre := pre - {t};
        intr := intr - {other};
      }
      assert intr == Cut(old(intr), t);
      assert pre == Cut(old(pre), t);
    }

    /** remove_preempted_status. */
    method RemovePreempted(t: nat)
      requires LinksOk() && t in thds
      modifies this`thds, this`intr, this`pre
      ensures LinksOk() && thds == old(thds)[t := old(thds)[t].(preempted := false)]
      ensures intr == (if t in old(pre) then Cut(old(intr), t) else old(intr))
      ensures pre == if t in old(pre) then Cut(old(pre), t) else old(pre)
    {
      hide Inverse;
      hide Ranked;
      hide Cut;
      CutKeeps(t);
      CutLinks(intr, pre, t);
      assert StateOk(thds[t]);
      hide StatesOk;
      if t in pre {
        var p, i := pre[t], if t in intr then Some(intr[t]) else None;
        intr := intr - {p};
        if i.Some? {
          pre := pre - {i.value};
        }
        pre := pre - {t};
        intr := intr - {t};
        assert intr == Cut(old(intr), t);
        assert pre == Cut(old(pre), t);
      }
      ChangeState(thds, intr, pre, t, thds[t].(preempted := false));
      thds := thds[t := thds[t].(preempted := false)];
    }

    /** The state of an upcall thread changes with the counts of its brand. */
    ghost predicate Facts(b: nat)
      reads this
    {
      && b in upcallOf && b in pending && b in activations && b in completions && upcallOf[b] in thds
      && StateOk(thds[upcallOf[b]]) && thds[upcallOf[b]].brand == Some(b)
      && activations[b] == completions[b] + pending[b] + Busy(thds, upcallOf[b])
      && (thds[upcallOf[b]].ready ==> upcallOf[b] !in intr && upcallOf[b] !in pre && upcallOf[b] !in intr.Values)
    }

    lemma BrandFacts(b: nat)
      requires LinksOk() && CountsOk() && b in upcallOf
      ensures Facts(b)
    {
      var u := upcallOf[b];
      forall x | x in intr
        ensures intr[x] in pre
      {
      }
      assert thds[u].ready ==> u !in intr.Values;
    }

    lemma ThreadFacts(t: nat)
      requires LinksOk() && CountsOk() && t in thds
      ensures StateOk(thds[t]) && (t in intr ==> intr[t] in thds && !thds[intr[t]].ready && intr[t] != t)
      ensures thds[t].brand.Some? ==> thds[t].brand.value in upcallOf && upcallOf[thds[t].brand.value] == t
    {
      assert t in intr ==> intr[t] in pre;
    }

    /** The counts of a brand and the state of its upcall thread change: to p pending requests, a activations
        and c completions. */
    method Recount(b: nat, now: Thd, p: nat, ghost a: nat, ghost c: nat)
      requires LinksOk() && CountsOk() && b in upcallOf && StateOk(now) && now.brand == Some(b)
      requires a == c + p + (if now.active then 1 else 0) && (now.ready ==> upcallOf[b] !in intr && upcallOf[b] !in pre)
      modifies this`thds, this`pending, this`activations, this`completions
      ensures LinksOk() && CountsOk() && upcallOf[b] in old(thds) && thds == old(thds)[upcallOf[b] := now]
      ensures pending == old(pending)[b := p] && activations == old(activations)[b := a]
      ensures completions == old(completions)[b := c]
    {
      hide Inverse;
      hide Ranked;
      hide StatesOk;
      hide BrandsOk;
      hide Counted;
      BrandFacts(b);
      CountStep(thds, upcallOf, pending, activations, completions, b, now, p, a, c);
      ChangeState(thds, intr, pre, upcallOf[b], now);
      thds := thds[upcallOf[b] := now];
      pending := pending[b := p];
      activations, completions := activations[b := a], completions[b := c];
    }

    /** brand_next_thread, for the current thread; preempt is as in the source, and `urgent` is the answer of
        brand_higher_urgency. */
    method Brand(b: nat, preempt: nat, urgent: bool)
      requires Valid() && b in upcallOf
      modifies this`thds, this`pending, this`activations, this`completions
      modifies this`intr, this`pre, this`rank, this`clock, this`current
      ensures Valid() && Activated(b, old(activations), activations) && completions == old(completions)
      ensures Branded(old(View()), b, preempt, urgent, View())
    {
      hide LinksOk;
      hide CountsOk;
      var u, cur := upcallOf[b], current;
      BrandFacts(b);
      if thds[u].active {
        Recount(b, thds[u], pending[b] + 1, activations[b] + 1, completions[b]);
        return;
      }
      Recount(b, thds[u].(active := true, ready := false), pending[b], activations[b] + 1, completions[b]);
      if urgent {
        if thds[cur].preempted || cur in pre {
          return;
        }
        Preempt(u, cur, preempt);
        current := u;
      } else if thds[cur].active {
        BreakChain(cur);
      }
    }

    /** brand_execution_completion, for the current thread, which is an active upcall. */
    method Complete()
      requires Valid() && thds[current].active
      modifies this`thds, this`pending, this`activations, this`completions, this`intr, this`pre, this`current
      ensures Valid() && activations == old(activations) && Completed(old(View()), View())
      ensures var b := old(thds)[old(current)].brand;
              && b.Some? && b.value in old(pending)
              && if old(pending)[b.value] > 0 || old(current) in old(intr)
                 then Activated(b.value, old(completions), completions) else completions == old(completions)
    {
      hide LinksOk;
      hide CountsOk;
      var cur := current;
      ThreadFacts(cur);
      var b := thds[cur].brand.value;
      BrandFacts(b);
      if pending[b] > 0 {
        Recount(b, thds[cur], pending[b] - 1, activations[b], completions[b] + 1);
        return;
      }
      if cur !in intr {
        return;
      }
      var prev := intr[cur];
      NoPreempterLeft(cur);
      BreakChain(cur);
      NotInCut(old(intr), old(pre), cur);
      Recount(b, thds[cur].(active := false, ready := true), 0, activations[b], completions[b] + 1);
      current := prev;
      if thds[prev].preempted {
        ClearPreempted(prev);
      }
    }

    lemma NoPreempterLeft(t: nat)
      requires LinksOk() && t in intr
      ensures intr[t] !in Cut(pre, t)
    {
    }

    method ClearPreempted(t: nat)
      requires LinksOk() && CountsOk() && t in thds
      modifies this`thds, this`intr, this`pre
      ensures LinksOk() && CountsOk() && thds == old(thds)[t := old(thds)[t].(preempted := false)]
      ensures intr == (if t in old(pre) then Cut(old(intr), t) else old(intr))
      ensures pre == if t in old(pre) then Cut(old(pre), t) else old(pre)
    {
      hide LinksOk;
      hide BrandsOk;
      hide Counted;
      CountSame(thds, upcallOf, pending, activations, completions, t, thds[t].(preempted := false));
      RemovePreempted(t);
    }

    /** cos_syscall_switch_thread_cont to thread t; `finish` stands for the flags TAILCALL and BRAND_WAIT. */
    method Switch(t: nat, finish: bool) returns (done: bool)
      requires Valid()
      modifies this`thds, this`pending, this`activations, this`completions, this`intr, this`pre, this`current
      ensures Valid() && activations == old(activations)
      ensures Switched(old(View()), t, finish, View()) && (done <==> old(MaySwitch(View(), t, finish)))
      ensures var b := old(thds)[old(current)].brand;
              if done && finish then b.Some? && Activated(b.value, old(completions), completions)
              else completions == old(completions)
    {
      hide LinksOk;
      hide CountsOk;
      var cur := current;
      if t == cur || t !in thds || thds[t].ready || (finish && !thds[cur].active) {
        return false;
      }
      done := true;
      ThreadFacts(cur);
      if finish {
        var b := thds[cur].brand.value;
        BrandFacts(b);
        if pending[b] > 0 {
          Recount(b, thds[cur], pending[b] - 1, activations[b], completions[b] + 1);
          return;
        }
        BreakChain(cur);
        NotInCut(old(intr), old(pre), cur);
        Recount(b, thds[cur].(active := false, ready := true), 0, activations[b], completions[b] + 1);
      } else {
        BreakChain(cur);
      }
      current := t;
      if thds[t].preempted {
        ClearPreempted(t);
      }
    }

    /** COS_BRAND_ADD_THD: the thread becomes the upcall thread of the brand, and starts out active. */
    method AddUpcall(b: nat, t: nat)
      requires Valid() && b in pending && b !in upcallOf && t in thds && thds[t].brand.None?
      modifies this`thds, this`upcallOf, this`intr, this`pre, this`activations, this`completions
      ensures Valid() && Added(old(View()), b, t, View())
    {
      hide Inverse;
      hide Ranked;
      hide StatesOk;
      hide BrandsOk;
      hide Counted;
      hide Cut;
      ThreadFacts(t);
      BreakChain(t);
      AddBrand(thds, upcallOf, pending, activations, completions, b, t);
      ChangeState(thds, intr, pre, t, thds[t].(brand := Some(b), active := true));
      thds := thds[t := thds[t].(brand := Some(b), active := true)];
      upcallOf := upcallOf[b := t];
      activations, completions := activations[b := pending[b] + 1], completions[b := 0];
    }

    /** COS_BRAND_CREATE. */
    method CreateBrand(b: nat)
      requires Valid() && b !in pending
      modifies this`pending, this`activations, this`completions
      ensures Valid() && pending == old(pending)[b := 0]
      ensures activations == old(activations)[b := 0] && completions == old(completions)[b := 0]
    {
      hide LinksOk;
      pending := pending[b := 0];
      activations, completions := activations[b := 0], completions[b := 0];
    }

    method CreateThread(t: nat)
      requires Valid() && t !in thds
      modifies this`thds, this`rank, this`clock
      ensures Valid() && thds == old(thds)[t := Thd(None, false, false, false)]
    {
      hide BrandsOk;
      hide Counted;
      hide Inverse;
      hide Ranked;
      hide StatesOk;
      NewThread(thds, upcallOf, pending, activations, completions, t);
      NewInNoChain(thds, intr, pre, rank, clock, t);
      thds := thds[t := Thd(None, false, false, false)];
      rank, clock := rank[t := clock], clock + 1;
    }

    /** One operation of the kernel, if it is possible in the present state. */
    method Step(op: Op)
      requires Valid()
      modifies this
      ensures Valid() && Stepped(old(View()), op, View())
    {
      hide LinksOk;
      hide CountsOk;
      hide Branded;
      hide Completed;
      hide Switched;
      match op {
        case DoBrand(b, preempt, urgent) =>
          if b in upcallOf {
            Brand(b, preempt, urgent);
          }
        case DoComplete =>
          if thds[current].active {
            Complete();
          }
        case DoSwitch(t, finish) =>
          var _ := Switch(t, finish);
        case DoBreak(t) =>
          BreakChain(t);
        case DoAddUpcall(b, t) =>
          if b in pending && b !in upcallOf && t in thds && thds[t].brand.None? {
            AddUpcall(b, t);
          }
        case DoCreateBrand(b) =>
          if b !in pending {
            CreateBrand(b);
          }
        case DoCreateThread(t) =>
          if t !in thds {
            CreateThread(t);
          }
      }
    }

    /** Every run of operations keeps the chains, the states of the upcall threads and the counts. */
    method Run(ops: seq<Op>) returns (ghost ks: seq<State>)
      requires Valid()
      modifies this
      ensures Valid() && IsRun(ks, ops) && ks[0] == old(View()) && ks[|ops|] == View()
      ensures forall b :: b in upcallOf ==>
                && b in pending && b in activations && b in completions && upcallOf[b] in thds
                && activations[b] == completions[b] + pending[b] + if thds[upcallOf[b]].active then 1 else 0
      ensures forall p :: |p| > 1 && Chain(intr, p) ==> p[0] != p[|p| - 1]
    {
      hide LinksOk;
      hide CountsOk;
      hide Stepped;
      ks := [View()];
      for k := 0 to |ops|
        invariant Valid() && |ks| == k + 1 && ks[0] == old(View()) && ks[k] == View() && IsRun(ks, ops[..k])
      {
        Step(ops[k]);
        LongerRun(ks, ops, k, View());
        ks := ks + [View()];
      }
      assert ops[..|ops|] == ops;
      forall b | b in upcallOf
        ensures Facts(b)
      {
        BrandFacts(b);
      }
      forall p | |p| > 1 && Chain(intr, p)
        ensures p[0] != p[|p| - 1]
      {
        NoCycle(p);
      }
    }

    lemma NoCycle(p: seq<nat>)
      requires LinksOk() && |p| > 1 && Chain(intr, p)
      ensures p[0] != p[|p| - 1]
    {
      Acyclic(intr, rank, clock, p);
    }

    /** The upcall thread u, which is in no chain, takes over from thread t. */
    method Preempt(u: nat, t: nat, preempt: nat)
      requires LinksOk() && CountsOk() && u in thds && t in thds
      requires u != t && t !in pre && thds[u].active && !thds[t].ready
      requires u !in intr && u !in pre && u !in intr.Values
      modifies this`thds, this`intr, this`pre, this`rank, this`clock
      ensures LinksOk() && CountsOk()
      ensures thds == if preempt == 1 then old(thds)[t := old(thds)[t].(preempted := true)] else old(thds)
      ensures intr == (if preempt != 0 then old(intr)[u := t] else old(intr))
      ensures pre == if preempt != 0 then old(pre)[t := u] else old(pre)
    {
      hide Inverse;
      hide Ranked;
      hide StatesOk;
      hide BrandsOk;
      hide Counted;
      ThreadFacts(u);
      if preempt != 0 {
        if preempt == 1 {
          ThreadFacts(t);
          CountSame(thds, upcallOf, pending, activations, completions, t, thds[t].(preempted := true));
          ChangeState(thds, intr, pre, t, thds[t].(preempted := true));
          thds := thds[t := thds[t].(preempted := true)];
        }
        NoneInterrupts(u);
        LinkInverse(intr, pre, u, t);
        LinkRanked(intr, rank, clock, u, t);
        LinkStates(thds, intr, pre, u, t);
        pre := pre[t := u];
        intr := intr[u := t];
        rank, clock := rank[u := clock], clock + 1;
      }
    }

    lemma NoneInterrupts(u: nat)
      requires u !in intr.Values
      ensures forall x :: x in intr ==> intr[x] != u
    {
      forall x | x in intr
        ensures intr[x] != u
      {
        assert intr[x] in intr.Values;
      }
    }
  }

  ghost predicate Activated(b: nat, was: map<nat, nat>, now: map<nat, nat>) {
    b in was && now == was[b := was[b] + 1]
  }

  lemma NotInCut(intr: map<nat, nat>, pre: map<nat, nat>, t: nat)
    ensures t !in Cut(intr, t) && t !in Cut(pre, t)
  {
  }

  lemma LinkStates(ts: map<nat, Thd>, intr: map<nat, nat>, pre: map<nat, nat>, u: nat, t: nat)
    requires StatesOk(ts, intr, pre) && u in ts && t in ts && !ts[u].ready && !ts[t].ready
    ensures StatesOk(ts, intr[u := t], pre[t := u])
  {
  }
}
