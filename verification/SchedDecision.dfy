/** How a user-level scheduler commits a scheduling decision (src/components/implementation/sched/cos_sched_base.c,
    cos_scheduler.h) while the kernel may post events and preempt it at any time (src/kernel/inv.c).  The target of
    the switch passes through a page that all threads of the scheduler and the kernel share.  There is one processor:
    only the running thread acts, and whenever the kernel makes another thread run it posts an event for the thread
    that is left. */
module SchedDecision {
  import opened Seqs

  /** Where a thread is in the loop of sched_switch_thread_target, or in taking and releasing the lock. */
  datatype Pc =
    | Outside                             // not in the loop
    | Contending(owner: nat)              // has found the lock taken, and goes on to switch to its owner
    | Locked                              // holds the lock
    | Seen                                // has seen the pending flag set
    | Cleared                             // has cleared the flag
    | Draining(begun: nat)                // processes events; so many had been posted when it began
    | Informed                            // is about to choose
    | Chosen(x: nat, seen: nat)           // has chosen x, knowing the first `seen` events
    | Written                             // has written its choice to the page
    | Staying                             // will go on running, and is about to release the lock
    | Yielding(waiter: nat, wrote: bool)  // has released the lock, and goes on to switch to a thread that waits for it
    | Released                            // goes on to the switch_thread system call

  /** The processor, the shared page with the lock word, and the threads.  The last fields are the history: how many
      events have been posted, how many of the first ones have been processed, and, for the last target written, how
      many were known when it was chosen and who wrote it. */
  datatype State = State(
    running: nat, pending: bool, cevt: bool, next: nat, owner: Option<nat>, queued: Option<nat>, pcs: map<nat, Pc>,
    posted: nat, processed: nat, basis: nat, writer: nat)

  /** The atomic steps.  A flag says whether the kernel accepts the target of a switch. */
  datatype Act =
    | Post                       // an event, such as a brand that is not urgent enough to run
    | Dispatch(u: nat)           // a brand preempts the running thread, or completes and resumes another
    | ChildEvent
    | PollChild
    | Take(t: nat)
    | Block(t: nat, ok: bool)
    | Check(t: nat)
    | Clear(t: nat)
    | Begin(t: nat)
    | Finish(t: nat, upTo: nat)
    | Choose(t: nat, x: nat)
    | Stay(t: nat)
    | Write(t: nat)
    | Release(t: nat)
    | Unblock(t: nat, ok: bool)
    | Switch(t: nat, ok: bool)

  datatype Outcome = Again | ChildEvents | Commit(x: nat)

  function At(s: State, t: nat): Pc {
    if t in s.pcs then s.pcs[t] else Outside
  }

  function Goto(s: State, t: nat, pc: Pc): State {
    s.(pcs := s.pcs[t := pc])
  }

  /** The thread is between taking and releasing the lock. */
  predicate Holding(pc: Pc) {
    !pc.Outside? && !pc.Contending? && !pc.Yielding? && !pc.Released?
  }

  /** The thread has written its choice and has not yet made the switch. */
  predicate HasWritten(pc: Pc) {
    pc.Written? || pc.Released? || (pc.Yielding? && pc.wrote)
  }

  /** update_evt_list: an event voids the target in the page and sets the flag. */
  function Posted(s: State): State {
    s.(posted := s.posted + 1, next := 0, pending := true)
  }

  /** The kernel makes u run, and posts an event for the thread that is left. */
  function SwitchTo(s: State, u: nat): State {
    Posted(s).(running := u)
  }

  /** What the kernel makes of the page in switch_thread_parse_data_area. */
  function Parsed(s: State): Outcome {
    if s.pending then Again
    else if s.cevt then ChildEvents
    else if s.next == 0 then Again
    else Commit(s.next)
  }

  /** The step may be taken in this state. */
  predicate Enabled(s: State, a: Act) {
    match a
    case Post => true
    case Dispatch(u) => u != s.running
    case ChildEvent => true
    case PollChild => true
    case Take(t) => t == s.running && At(s, t).Outside?
    case Block(t, ok) => t == s.running && At(s, t).Contending?
    case Check(t) => t == s.running && At(s, t).Locked?
    case Clear(t) => t == s.running && At(s, t).Seen?
    case Begin(t) => t == s.running && At(s, t).Cleared?
    case Finish(t, upTo) => t == s.running && At(s, t).Draining? && At(s, t).begun <= upTo <= s.posted
    case Choose(t, x) => t == s.running && At(s, t).Informed? && x != 0
    case Stay(t) => t == s.running && At(s, t).Informed?
    case Write(t) => t == s.running && At(s, t).Chosen?
    case Release(t) => t == s.running && (At(s, t).Written? || At(s, t).Staying?)
    case Unblock(t, ok) => t == s.running && At(s, t).Yielding?
    case Switch(t, ok) => t == s.running && At(s, t).Released?
  }

  function Next(s: State, a: Act): State
    requires Enabled(s, a)
  {
    match a
    case Post => Posted(s)
    case Dispatch(u) => SwitchTo(s, u)
    case ChildEvent => s.(cevt := true)
    case PollChild => s.(cevt := false)
    case Take(t) => Taken(s, t)
    case Block(t, ok) => Blocked(s, t, At(s, t).owner, ok)
    case Check(t) => Goto(s, t, if s.pending then Seen else Informed)
    case Clear(t) => Goto(s, t, Cleared).(pending := false)
    case Begin(t) => Goto(s, t, Draining(s.posted))
    case Finish(t, upTo) => Goto(s, t, Informed).(processed := upTo)
    case Choose(t, x) => Goto(s, t, Chosen(x, s.processed))
    case Stay(t) => Goto(s, t, Staying)
    case Write(t) => Goto(s, t, Written).(next := At(s, t).x, basis := At(s, t).seen, writer := t)
    case Release(t) => Goto(s, t, AfterRelease(s, At(s, t).Written?)).(owner := None, queued := None)
    case Unblock(t, ok) => Unblocked(s, t, At(s, t).waiter, At(s, t).wrote, ok)
    case Switch(t, ok) => Switched(s, t, ok)
  }

  /** cos_atomic_user1. */
  function Taken(s: State, t: nat): State {
    match s.owner
    case None => Goto(s, t, Locked).(owner := Some(t), queued := None)
    case Some(o) => Goto(s, t, Contending(o))
  }

  /** switch_thread with SYNC_BLOCK: only if the owner still is the one that was found.  The thread tries again. */
  function Blocked(s: State, t: nat, o: nat, ok: bool): State {
    var n := Goto(s, t, Outside);
    if ok && s.owner == Some(o) then SwitchTo(n, o).(queued := Some(t)) else n
  }

  /** Where cos_atomic_user2 leads: to the waiting thread first, if there is one. */
  function AfterRelease(s: State, wrote: bool): Pc {
    match s.queued
    case Some(w) => Yielding(w, wrote)
    case None => if wrote then Released else Outside
  }

  /** switch_thread with SYNC_UNBLOCK. */
  function Unblocked(s: State, t: nat, w: nat, wrote: bool, ok: bool): State {
    var n := Goto(s, t, if wrote then Released else Outside);
    if ok then SwitchTo(n, w) else n
  }

  /** switch_thread without these flags: the target comes from the page, and is taken out of it. */
  function Switched(s: State, t: nat, ok: bool): State {
    var n := Goto(s, t, Outside);
    match Parsed(s)
    case Again => if s.pending then n else n.(next := 0)
    case ChildEvents => n
    case Commit(x) => if ok then SwitchTo(n, x) else n.(next := 0)
  }

  function Initial(t: nat): State {
    State(t, false, false, 0, None, None, map[], 0, 0, 0, t)
  }

  /** The states are those that the acts lead through, from an initial one. */
  ghost predicate IsRun(ss: seq<State>, acts: seq<Act>) {
    && |ss| == |acts| + 1 && ss[0] == Initial(ss[0].running)
    && forall i :: 0 <= i < |acts| ==> Enabled(ss[i], acts[i]) && ss[i + 1] == Next(ss[i], acts[i])
  }

  // ----- what every step keeps

  ghost predicate LockOk(s: State) {
    forall t: nat :: Holding(At(s, t)) <==> s.owner == Some(t)
  }

  /** A thread that is draining finds all events that were posted when it began; later ones set the flag. */
  ghost predicate DrainOk(s: State) {
    && s.processed <= s.posted
    && forall t: nat :: At(s, t).Draining? ==>
         s.processed <= At(s, t).begun <= s.posted && (At(s, t).begun < s.posted ==> s.pending)
  }

  /** Unless a thread is about to drain them, events that have not been processed have set the flag. */
  ghost predicate FlagOk(s: State) {
    s.processed < s.posted && !s.pending ==> exists t: nat :: At(s, t).Cleared? || At(s, t).Draining?
  }

  ghost predicate ChoiceOk(s: State) {
    forall t: nat :: At(s, t).Chosen? ==> At(s, t).x != 0 && At(s, t).seen == s.processed
  }

  /** If the running thread has written a target that is still there, it is its own; and it was chosen with all
      events known, or the flag is set. */
  ghost predicate TargetOk(s: State) {
    HasWritten(At(s, s.running)) && s.next != 0 ==>
      s.writer == s.running && s.basis <= s.posted && (s.basis == s.posted || s.pending)
  }

  ghost predicate Inv(s: State) {
    LockOk(s) && DrainOk(s) && FlagOk(s) && ChoiceOk(s) && TargetOk(s)
  }

  lemma LockKept(s: State, a: Act)
    requires LockOk(s) && Enabled(s, a)
    ensures LockOk(Next(s, a))
  {
    var n := Next(s, a);
    forall t: nat
      ensures Holding(At(n, t)) <==> n.owner == Some(t)
    {
      assert Holding(At(s, t)) <==> s.owner == Some(t);
      assert Holding(At(s, s.running)) <==> s.owner == Some(s.running);
    }
  }

  lemma DrainKept(s: State, a: Act)
    requires LockOk(s) && DrainOk(s) && Enabled(s, a)
    ensures DrainOk(Next(s, a))
  {
    var n := Next(s, a);
    forall t: nat | At(n, t).Draining?
      ensures n.processed <= At(n, t).begun <= n.posted && (At(n, t).begun < n.posted ==> n.pending)
    {
      assert Holding(At(s, t)) <==> s.owner == Some(t);
      assert Holding(At(s, s.running)) <==> s.owner == Some(s.running);
    }
  }

  lemma FlagKept(s: State, a: Act)
    requires LockOk(s) && DrainOk(s) && FlagOk(s) && Enabled(s, a)
    ensures FlagOk(Next(s, a))
  {
    var n := Next(s, a);
    if n.processed < n.posted && !n.pending {
      if a.Clear? {
        assert At(n, a.t).Cleared?;
      } else if a.Begin? {
        assert At(n, a.t).Draining?;
      } else if !a.Finish? {
        var t: nat :| At(s, t).Cleared? || At(s, t).Draining?;
        assert At(n, t) == At(s, t);
      }
    }
  }

  lemma ChoiceKept(s: State, a: Act)
    requires LockOk(s) && ChoiceOk(s) && Enabled(s, a)
    ensures ChoiceOk(Next(s, a))
  {
    var n := Next(s, a);
    forall t: nat | At(n, t).Chosen?
      ensures At(n, t).x != 0 && At(n, t).seen == n.processed
    {
      assert Holding(At(s, t)) <==> s.owner == Some(t);
      assert Holding(At(s, s.running)) <==> s.owner == Some(s.running);
    }
  }

  /** Nothing is left to drain for a thread that has chosen: it alone holds the lock. */
  lemma ChosenKnows(s: State, t: nat)
    requires LockOk(s) && FlagOk(s) && At(s, t).Chosen?
    ensures s.processed < s.posted ==> s.pending
  {
    assert Holding(At(s, t));
    assert forall u: nat :: At(s, u).Cleared? || At(s, u).Draining? ==> Holding(At(s, u));
  }

  lemma TargetKept(s: State, a: Act)
    requires Inv(s) && Enabled(s, a)
    ensures TargetOk(Next(s, a))
  {
    if a.Write? {
      ChosenKnows(s, a.t);
    }
  }

  lemma StepKeeps(s: State, a: Act)
    requires Inv(s) && Enabled(s, a)
    ensures Inv(Next(s, a))
  {
    LockKept(s, a);
    DrainKept(s, a);
    FlagKept(s, a);
    ChoiceKept(s, a);
    TargetKept(s, a);
  }

  lemma {:induction false} RunKeeps(ss: seq<State>, acts: seq<Act>, n: nat)
    requires IsRun(ss, acts) && n < |ss|
    ensures Inv(ss[n])
  {
    if n > 0 {
      RunKeeps(ss, acts, n - 1);
      StepKeeps(ss[n - 1], acts[n - 1]);
    }
  }

  // ----- the decision behind a target

  /** Thread t has chosen x before state n, when exactly the first `known` events had been processed. */
  ghost predicate Decided(ss: seq<State>, acts: seq<Act>, n: nat, t: nat, x: nat, known: nat) {
    exists k :: 0 <= k < n && k < |acts| && k < |ss| && acts[k] == Choose(t, x) && ss[k].processed == known
  }

  /** What is about to be written, and what has been, was decided on. */
  ghost predicate Traced(ss: seq<State>, acts: seq<Act>, n: nat)
    requires n < |ss|
  {
    && (forall t: nat :: At(ss[n], t).Chosen? ==> Decided(ss, acts, n, t, At(ss[n], t).x, At(ss[n], t).seen))
    && (ss[n].next != 0 ==> Decided(ss, acts, n, ss[n].writer, ss[n].next, ss[n].basis))
  }

  lemma {:induction false} RunTraced(ss: seq<State>, acts: seq<Act>, n: nat)
    requires IsRun(ss, acts) && n < |ss|
    ensures Traced(ss, acts, n)
  {
    if n > 0 {
      RunTraced(ss, acts, n - 1);
      StepTraced(ss, acts, n - 1);
    }
  }

  lemma StepTraced(ss: seq<State>, acts: seq<Act>, n: nat)
    requires n < |acts| && n + 1 < |ss| && Enabled(ss[n], acts[n]) && ss[n + 1] == Next(ss[n], acts[n])
    requires Traced(ss, acts, n)
    ensures Traced(ss, acts, n + 1)
  {
    hide Next;
    hide Enabled;
    var s, r := ss[n], ss[n + 1];
    forall t: nat | At(r, t).Chosen?
      ensures Decided(ss, acts, n + 1, t, At(r, t).x, At(r, t).seen)
    {
      ChosenBy(s, acts[n], t);
      assert acts[n] == Choose(t, At(r, t).x) || At(s, t) == At(r, t);
    }
    if r.next != 0 {
      WrittenBy(s, acts[n]);
    }
  }

  lemma ChosenBy(s: State, a: Act, t: nat)
    requires Enabled(s, a) && At(Next(s, a), t).Chosen?
    ensures var pc := At(Next(s, a), t);
            At(s, t) == pc || (a == Choose(t, pc.x) && s.processed == pc.seen)
  {
  }

  lemma WrittenBy(s: State, a: Act)
    requires Enabled(s, a) && Next(s, a).next != 0
    ensures var r := Next(s, a);
            || (r.next == s.next && r.writer == s.writer && r.basis == s.basis)
            || At(s, r.writer) == Chosen(r.next, r.basis)
  {
  }

  lemma PostedBy(s: State, a: Act)
    requires Enabled(s, a)
    ensures s.posted <= Next(s, a).posted && (s.posted == Next(s, a).posted ==> s.running == Next(s, a).running)
  {
  }

  lemma {:induction false} PostedGrows(ss: seq<State>, acts: seq<Act>, k: nat, n: nat)
    requires IsRun(ss, acts) && k <= n < |ss|
    ensures ss[k].posted <= ss[n].posted
  {
    hide Next;
    hide Enabled;
    if k < n {
      PostedGrows(ss, acts, k, n - 1);
      PostedBy(ss[n - 1], acts[n - 1]);
    }
  }

  /** Another thread does not come to run without an event. */
  lemma {:induction false} NoEventNoSwitch(ss: seq<State>, acts: seq<Act>, k: nat, n: nat)
    requires IsRun(ss, acts) && k <= n < |ss| && ss[k].posted == ss[n].posted
    ensures ss[k].running == ss[n].running
  {
    hide Next;
    hide Enabled;
    if k < n {
      PostedGrows(ss, acts, k, n - 1);
      PostedBy(ss[n - 1], acts[n - 1]);
      NoEventNoSwitch(ss, acts, k, n - 1);
    }
  }

  // ----- the results

  /** At most one thread is between taking and releasing the lock. */
  lemma MutualExclusion(ss: seq<State>, acts: seq<Act>, n: nat, t: nat, u: nat)
    requires IsRun(ss, acts) && n < |ss| && Holding(At(ss[n], t)) && Holding(At(ss[n], u))
    ensures t == u
  {
    RunKeeps(ss, acts, n);
  }

  /** No event is missed: a thread commits only to a target that it has chosen itself, after every event had been
      processed that is posted before the commit. */
  lemma CommitIsFresh(ss: seq<State>, acts: seq<Act>, n: nat) returns (k: nat)
    requires IsRun(ss, acts) && n < |acts| && acts[n].Switch? && Parsed(ss[n]).Commit?
    ensures k < n && acts[k] == Choose(acts[n].t, Parsed(ss[n]).x)
    ensures ss[k].processed == ss[k].posted == ss[n].posted
    ensures ss[n + 1].running == if acts[n].ok then acts[k].x else acts[n].t
  {
    assert Enabled(ss[n], acts[n]);
    hide Next;
    hide Enabled;
    hide Inv;
    hide Parsed;
    RunKeeps(ss, acts, n);
    RunTraced(ss, acts, n);
    OwnTarget(ss[n], acts[n]);
    k :| 0 <= k < n && acts[k] == Choose(ss[n].writer, ss[n].next) && ss[k].processed == ss[n].basis;
    RunKeeps(ss, acts, k);
    ProcessedIsPosted(ss[k]);
    PostedGrows(ss, acts, k, n);
    Committed(ss[n], acts[n]);
  }

  lemma Committed(s: State, a: Act)
    requires Enabled(s, a) && a.Switch? && Parsed(s).Commit?
    ensures a.t == s.running && Next(s, a).running == if a.ok then Parsed(s).x else a.t
  {
  }

  lemma OwnTarget(s: State, a: Act)
    requires Inv(s) && Enabled(s, a) && a.Switch? && Parsed(s).Commit?
    ensures s.next == Parsed(s).x != 0 && s.writer == a.t && s.basis == s.posted
  {
  }

  lemma ProcessedIsPosted(s: State)
    requires Inv(s)
    ensures s.processed <= s.posted
  {
  }

  // ----- who runs next

  /** Thread t has found the lock taken by o before state n. */
  ghost predicate FoundOwner(ss: seq<State>, acts: seq<Act>, n: nat, t: nat, o: nat) {
    exists k :: 0 <= k < n && k < |acts| && k < |ss| && acts[k] == Take(t) && ss[k].owner == Some(o)
  }

  /** Thread t has released the lock before state n, when w was queued for it. */
  ghost predicate ReleasedTo(ss: seq<State>, acts: seq<Act>, n: nat, t: nat, w: nat) {
    exists k :: 0 <= k < n && k < |acts| && k < |ss| && acts[k] == Release(t) && ss[k].queued == Some(w)
  }

  ghost predicate Remembered(ss: seq<State>, acts: seq<Act>, n: nat)
    requires n < |ss|
  {
    && (forall t: nat :: At(ss[n], t).Contending? ==> FoundOwner(ss, acts, n, t, At(ss[n], t).owner))
    && (forall t: nat :: At(ss[n], t).Yielding? ==> ReleasedTo(ss, acts, n, t, At(ss[n], t).waiter))
  }

  lemma ContendingBy(s: State, a: Act, t: nat)
    requires Enabled(s, a) && At(Next(s, a), t).Contending?
    ensures var pc := At(Next(s, a), t);
            At(s, t) == pc || (a == Take(t) && s.owner == Some(pc.owner))
  {
  }

  lemma YieldingBy(s: State, a: Act, t: nat)
    requires Enabled(s, a) && At(Next(s, a), t).Yielding?
    ensures var pc := At(Next(s, a), t);
            At(s, t) == pc || (a == Release(t) && s.queued == Some(pc.waiter))
  {
  }

  lemma {:induction false} RunRemembers(ss: seq<State>, acts: seq<Act>, n: nat)
    requires IsRun(ss, acts) && n < |ss|
    ensures Remembered(ss, acts, n)
  {
    if n > 0 {
      RunRemembers(ss, acts, n - 1);
      hide Next;
      hide Enabled;
      var s, r, a := ss[n - 1], ss[n], acts[n - 1];
      assert Enabled(ss[n - 1], acts[n - 1]) && ss[n - 1 + 1] == Next(ss[n - 1], acts[n - 1]);
      forall t: nat | At(r, t).Contending?
        ensures FoundOwner(ss, acts, n, t, At(r, t).owner)
      {
        ContendingBy(s, a, t);
      }
      forall t: nat | At(r, t).Yielding?
        ensures ReleasedTo(ss, acts, n, t, At(r, t).waiter)
      {
        YieldingBy(s, a, t);
      }
    }
  }

  /** The running thread changes exactly in these steps, and to these threads: to the one that a brand makes run; to
      the owner of the lock, if it still is the one that was found; to the one that waited when the lock was
      released; and to the target in the page, if there is one and no event is pending.  The kernel has to accept the
      switch. */
  lemma RunsNext(s: State, a: Act)
    requires Enabled(s, a)
    ensures a.Dispatch? ==> Next(s, a).running == a.u
    ensures a.Block? ==>
              var o := At(s, a.t).owner; Next(s, a).running == if a.ok && s.owner == Some(o) then o else a.t
    ensures a.Unblock? ==> Next(s, a).running == if a.ok then At(s, a.t).waiter else a.t
    ensures a.Switch? ==>
              Next(s, a).running == if a.ok && !s.pending && !s.cevt && s.next != 0 then s.next else a.t
    ensures !a.Dispatch? && !a.Block? && !a.Unblock? && !a.Switch? ==> Next(s, a).running == s.running
  {
  }

  /** Why thread u runs after step n of a run, if another one ran before. */
  ghost predicate Justified(ss: seq<State>, acts: seq<Act>, n: nat, t: nat, u: nat)
    requires n < |acts| && n + 1 < |ss|
  {
    || acts[n] == Dispatch(u)
    || (acts[n] == Block(t, true) && ss[n].owner == Some(u) && FoundOwner(ss, acts, n, t, u))
    || (acts[n] == Unblock(t, true) && ReleasedTo(ss, acts, n, t, u))
    || (acts[n] == Switch(t, true) && Decided(ss, acts, n, t, u, ss[n].posted))
  }

  /** In every run another thread comes to run only because a brand makes it, because it owns the lock that the
      running thread waits for, because it waited for the lock when the running thread released it, or because the
      running thread has chosen it itself, with all events known that are posted before the switch. */
  lemma SwitchIsJustified(ss: seq<State>, acts: seq<Act>, n: nat)
    requires IsRun(ss, acts) && n < |acts| && ss[n + 1].running != ss[n].running
    ensures Justified(ss, acts, n, ss[n].running, ss[n + 1].running)
  {
    var s, a := ss[n], acts[n];
    assert Enabled(ss[n], acts[n]) && ss[n + 1] == Next(ss[n], acts[n]);
    RunsNext(s, a);
    RunRemembers(ss, acts, n);
    ByTheRunning(s, a);
    hide Next;
    hide Enabled;
    if a.Switch? {
      ParsedIs(s);
      hide Parsed;
      var k := CommitIsFresh(ss, acts, n);
    }
  }

  lemma ByTheRunning(s: State, a: Act)
    requires Enabled(s, a)
    ensures a.Block? ==> a.t == s.running && At(s, a.t).Contending?
    ensures a.Unblock? ==> a.t == s.running && At(s, a.t).Yielding?
    ensures a.Switch? ==> a.t == s.running
  {
  }

  lemma ParsedIs(s: State)
    ensures Parsed(s) == Commit(s.next) <==> !s.pending && !s.cevt && s.next != 0
    ensures Parsed(s).Commit? ==> Parsed(s) == Commit(s.next)
    ensures s.pending ==> Parsed(s) == Again
    ensures !s.pending && s.cevt ==> Parsed(s) == ChildEvents
    ensures !s.pending && !s.cevt && s.next == 0 ==> Parsed(s) == Again
  {
  }

  /** A thread that another one ran in between does not commit: the kernel tells it to decide again. */
  lemma InterruptedDecidesAgain(ss: seq<State>, acts: seq<Act>, k: nat, m: nat, n: nat, t: nat, x: nat)
    requires IsRun(ss, acts) && k < m < n < |acts| && acts[n].Switch? && acts[n].t == t
    requires acts[k] == Choose(t, x) && (forall j :: k < j < n ==> acts[j] != Choose(t, x)) && ss[m].running != t
    ensures !Parsed(ss[n]).Commit? || Parsed(ss[n]).x != x
  {
    if Parsed(ss[n]).Commit? && Parsed(ss[n]).x == x {
      var i := CommitIsFresh(ss, acts, n);
      PostedGrows(ss, acts, i, m);
      PostedGrows(ss, acts, m, n);
      NoEventNoSwitch(ss, acts, i, m);
      assert false;
    }
  }

  // ----- what undisturbed steps lead to

  /** The acts can be taken in this order, and lead from s to r. */
  ghost predicate Leads(s: State, acts: seq<Act>, r: State)
    decreases |acts|
  {
    if acts == [] then r == s else Enabled(s, acts[0]) && Leads(Next(s, acts[0]), acts[1..], r)
  }

  lemma {:induction false} LeadsOn(s: State, first: seq<Act>, m: State, second: seq<Act>, r: State)
    requires Leads(s, first, m) && Leads(m, second, r)
    ensures Leads(s, first + second, r)
    decreases |first|
  {
    if first == [] {
      assert first + second == second;
    } else {
      assert (first + second)[1..] == first[1..] + second;
      LeadsOn(Next(s, first[0]), first[1..], m, second, r);
    }
  }

  lemma LeadsTwo(s: State, a: Act, b: Act)
    requires Enabled(s, a) && Enabled(Next(s, a), b)
    ensures Leads(s, [a, b], Next(Next(s, a), b))
  {
    hide Enabled;
    hide Next;
    var m := Next(s, a);
    var r := Next(m, b);
    assert [a, b][1..] == [b] && [b][1..] == [];
    assert Leads(r, [], r);
    assert Leads(m, [b], r);
  }

  lemma LeadsThree(s: State, a: Act, b: Act, c: Act)
    requires Enabled(s, a) && Enabled(Next(s, a), b) && Enabled(Next(Next(s, a), b), c)
    ensures Leads(s, [a, b, c], Next(Next(Next(s, a), b), c))
  {
    hide Enabled;
    hide Next;
    LeadsTwo(Next(s, a), b, c);
    assert [a, b, c][1..] == [b, c];
  }

  /** Getting the lock and the events: the acts of thread t up to its decision. */
  function Inquiry(s: State, t: nat): seq<Act> {
    if s.pending then [Take(t), Check(t)] + [Clear(t), Begin(t), Finish(t, s.posted)] else [Take(t), Check(t)]
  }

  /** A thread that finds the lock free, and is not disturbed, comes to decide with every event processed. */
  lemma UndisturbedInquiry(s: State, t: nat) returns (r: State)
    requires Inv(s) && s.running == t && At(s, t).Outside? && s.owner.None?
    ensures Leads(s, Inquiry(s, t), r) && At(r, t).Informed? && r.processed == r.posted == s.posted
    ensures r.running == t && !r.pending && r.owner == Some(t) && r.queued.None? && r.cevt == s.cevt && r.next == s.next
  {
    var m := Next(Next(s, Take(t)), Check(t));
    LeadsTwo(s, Take(t), Check(t));
    if s.pending {
      LeadsThree(m, Clear(t), Begin(t), Finish(t, s.posted));
      r := Next(Next(Next(m, Clear(t)), Begin(t)), Finish(t, s.posted));
      hide Leads;
      LeadsOn(s, [Take(t), Check(t)], m, [Clear(t), Begin(t), Finish(t, s.posted)], r);
    } else {
      r := m;
      NobodyDrains(s);
    }
  }

  /** While the lock is free all events are known, or the flag is set. */
  lemma NobodyDrains(s: State)
    requires LockOk(s) && FlagOk(s) && DrainOk(s) && s.owner.None? && !s.pending
    ensures s.processed == s.posted
  {
    assert forall t: nat :: At(s, t).Cleared? || At(s, t).Draining? ==> Holding(At(s, t));
  }

  /** Undisturbed, a thread's decision is carried out: the thread that it chooses runs, but that it is told of a child's
      events instead if there are any; the lock is free again. */
  lemma UndisturbedDecision(s: State, t: nat, x: nat) returns (r: State)
    requires Inv(s) && s.running == t && At(s, t).Outside? && s.owner.None? && x != 0
    ensures Leads(s, Inquiry(s, t) + ([Choose(t, x), Write(t)] + [Release(t), Switch(t, true)]), r)
    ensures r.running == (if s.cevt then t else x) && At(r, t).Outside? && r.owner.None?
    ensures r.posted == (if s.cevt then s.posted else s.posted + 1) && (r.pending <==> !s.cevt)
  {
    hide *;
    var d := UndisturbedInquiry(s, t);
    r := Decide(d, t, x);
    LeadsOn(s, Inquiry(s, t), d, [Choose(t, x), Write(t)] + [Release(t), Switch(t, true)], r);
  }

  lemma Decide(d: State, t: nat, x: nat) returns (r: State)
    requires d.running == t && At(d, t).Informed? && !d.pending && d.owner == Some(t) && d.queued.None? && x != 0
    ensures Leads(d, [Choose(t, x), Write(t)] + [Release(t), Switch(t, true)], r)
    ensures r.running == (if d.cevt then t else x) && At(r, t).Outside? && r.owner.None?
    ensures r.posted == (if d.cevt then d.posted else d.posted + 1) && (r.pending <==> !d.cevt)
  {
    hide Leads;
    var m := Next(Next(d, Choose(t, x)), Write(t));
    LeadsTwo(d, Choose(t, x), Write(t));
    LeadsTwo(m, Release(t), Switch(t, true));
    r := Next(Next(m, Release(t)), Switch(t, true));
    LeadsOn(d, [Choose(t, x), Write(t)], m, [Release(t), Switch(t, true)], r);
  }

  /** Undisturbed, a thread that decides to go on does, without the lock. */
  lemma UndisturbedStay(s: State, t: nat) returns (r: State)
    requires Inv(s) && s.running == t && At(s, t).Outside? && s.owner.None?
    ensures Leads(s, Inquiry(s, t) + [Stay(t), Release(t)], r)
    ensures r.running == t && At(r, t).Outside? && r.owner.None? && r.posted == s.posted == r.processed && !r.pending
  {
    var d := UndisturbedInquiry(s, t);
    LeadsTwo(d, Stay(t), Release(t));
    r := Next(Next(d, Stay(t)), Release(t));
    hide Leads;
    LeadsOn(s, Inquiry(s, t), d, [Stay(t), Release(t)], r);
  }

  /** A thread that finds the lock taken makes its owner run; when this one releases the lock, the thread runs again and
      finds it free. */
  lemma UndisturbedHandover(s: State, t: nat, o: nat) returns (r: State)
    requires Inv(s) && s.running == t && At(s, t).Outside? && s.owner == Some(o)
    requires At(s, o).Written? || At(s, o).Staying?
    ensures Leads(s, [Take(t), Block(t, true)] + [Release(o), Unblock(o, true)], r)
    ensures r.running == t && At(r, t).Outside? && r.owner.None? && r.queued.None? && r.next == 0 && r.pending
    ensures At(r, o) == if At(s, o).Written? then Released else Outside
  {
    assert Holding(At(s, o)) && t != o;
    var m := Next(Next(s, Take(t)), Block(t, true));
    LeadsTwo(s, Take(t), Block(t, true));
    LeadsTwo(m, Release(o), Unblock(o, true));
    r := Next(Next(m, Release(o)), Unblock(o, true));
    hide Leads;
    LeadsOn(s, [Take(t), Block(t, true)], m, [Release(o), Unblock(o, true)], r);
  }

  /** The kernel may post an event or make another thread run at any time, children may have events and be polled at any
      time, and a drain may end with any events that were posted before its end. */
  lemma AnyTime(s: State, t: nat, upTo: nat, u: nat)
    ensures Enabled(s, Post) && Enabled(s, ChildEvent) && Enabled(s, PollChild)
    ensures u != s.running ==> Enabled(s, Dispatch(u))
    ensures t == s.running && At(s, t).Draining? && At(s, t).begun <= upTo <= s.posted ==> Enabled(s, Finish(t, upTo))
  {
  }

  /** Every event voids the target in the page and sets the flag; nothing else but a switch and a write touches the
      target, and only a thread that is about to drain clears the flag. */
  lemma EventVoids(s: State, a: Act)
    requires Enabled(s, a)
    ensures var n := Next(s, a);
            && n.posted == s.posted + (if a.Post? || a.Dispatch? || n.posted != s.posted then 1 else 0)
            && (n.posted != s.posted ==> n.next == 0 && n.pending)
            && (n.running != s.running ==> n.posted != s.posted)
            && (n.posted == s.posted ==> n.pending == (s.pending && !a.Clear?))
            && (n.posted == s.posted && !a.Write? ==>
                  n.next == if a.Switch? && !s.pending && !s.cevt then 0 else s.next)
            && (a.Write? ==> n.next == At(s, a.t).x)
            && n.cevt == (if a.ChildEvent? then true else if a.PollChild? then false else s.cevt)
  {
  }

  /** What has been processed is what the last drain finished with. */
  ghost predicate LastDrain(ss: seq<State>, acts: seq<Act>, n: nat)
    requires n < |ss|
  {
    || (ss[n].processed == 0 && forall k :: 0 <= k < n && k < |acts| ==> !acts[k].Finish?)
    || exists k :: 0 <= k < n && k < |acts| && acts[k].Finish? && acts[k].upTo == ss[n].processed
                   && forall j :: k < j < n && j < |acts| ==> !acts[j].Finish?
  }

  lemma {:induction false} ProcessedIsDrained(ss: seq<State>, acts: seq<Act>, n: nat)
    requires IsRun(ss, acts) && n < |ss|
    ensures LastDrain(ss, acts, n)
  {
    if n > 0 {
      ProcessedIsDrained(ss, acts, n - 1);
      var s, a := ss[n - 1], acts[n - 1];
      assert Enabled(ss[n - 1], acts[n - 1]) && ss[n - 1 + 1] == Next(ss[n - 1], acts[n - 1]);
      ProcessedBy(s, a);
      hide Next;
      hide Enabled;
      if !a.Finish? && s.processed != 0 {
        var k :| 0 <= k < n - 1 && acts[k].Finish? && acts[k].upTo == s.processed
                 && forall j :: k < j < n - 1 ==> !acts[j].Finish?;
        assert forall j :: k < j < n ==> !acts[j].Finish?;
      }
    }
  }

  lemma ProcessedBy(s: State, a: Act)
    requires Enabled(s, a)
    ensures Next(s, a).processed == if a.Finish? then a.upTo else s.processed
  {
  }

  /** Decisions are committed: a run in which thread 1 drains an event and then switches to thread 7. */
  lemma CommitHappens() returns (ss: seq<State>, acts: seq<Act>)
    ensures IsRun(ss, acts) && Parsed(ss[|acts|]) == Commit(7) && Enabled(ss[|acts|], Switch(1, true))
  {
    hide IsRun;
    ss, acts := ChoiceHappens();
    ss, acts := Extend(ss, acts, Write(1));
    ss, acts := Extend(ss, acts, Release(1));
  }

  lemma ChoiceHappens() returns (ss: seq<State>, acts: seq<Act>)
    ensures IsRun(ss, acts) && |ss| == |acts| + 1
    ensures ss[|acts|] == State(1, false, false, 0, Some(1), None, map[1 := Chosen(7, 1)], 1, 1, 0, 1)
  {
    hide IsRun;
    ss, acts := DrainHappens();
    ss, acts := Extend(ss, acts, Finish(1, 1));
    ss, acts := Extend(ss, acts, Choose(1, 7));
  }

  lemma DrainHappens() returns (ss: seq<State>, acts: seq<Act>)
    ensures IsRun(ss, acts) && |ss| == |acts| + 1
    ensures ss[|acts|] == State(1, false, false, 0, Some(1), None, map[1 := Draining(1)], 1, 0, 0, 1)
  {
    hide IsRun;
    Start(1);
    ss, acts := Extend([Initial(1)], [], Post);
    ss, acts := Extend(ss, acts, Take(1));
    ss, acts := Extend(ss, acts, Check(1));
    ss, acts := Extend(ss, acts, Clear(1));
    ss, acts := Extend(ss, acts, Begin(1));
  }

  lemma Start(t: nat)
    ensures IsRun([Initial(t)], []) && Inv(Initial(t)) && Parsed(Initial(t)) == Again
    ensures Inquiry(Initial(t), t) == [Take(t), Check(t)]
  {
  }

  lemma Extend(ss: seq<State>, acts: seq<Act>, a: Act) returns (ss': seq<State>, acts': seq<Act>)
    requires IsRun(ss, acts) && |ss| == |acts| + 1 && Enabled(ss[|acts|], a)
    ensures IsRun(ss', acts') && |ss'| == |acts'| + 1 && |acts'| == |acts| + 1 && ss'[|acts'|] == Next(ss[|acts|], a)
  {
    ss', acts' := ss + [Next(ss[|acts|], a)], acts + [a];
  }
}
