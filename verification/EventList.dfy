/** The list of scheduling events in the page that the kernel shares with a user-level scheduler: the kernel
    appends at its tail (src/kernel/inv.c) while the scheduler takes from its head with atomic exchanges
    (src/components/implementation/sched/cos_scheduler.c). */
module EventList {
  import opened Seqs

  const NUM_SCHED_EVTS: nat := 128
  const EVT_NIL: nat := 0x20
  const WORD: nat := 0x1_0000_0000

  datatype Slot = Slot(next: nat, flags: nat, cpu: nat)

  /** Where the consumer is in its loop: before an entry, after the exchange of the entry's links and flags,
      or after the exchange of its cycles. */
  datatype Pc = Ready | Taken(id: nat, flags: nat) | Visited(id: nat, flags: nat, cpu: nat)

  datatype Act = PostEvent(i: nat, flags: nat, elapsed: nat) | TakeFirst | TakeSecond | MoveOn

  /** The cycle counter of an entry after `elapsed` more cycles, as 32-bit arithmetic computes it. */
  function Accumulated(p: nat, elapsed: nat): (r: nat)
    requires p < WORD && elapsed < WORD
    ensures r == if p + elapsed < WORD then p + elapsed else WORD - 1
  {
    var n := (p + elapsed) % WORD;
    if n < p then WORD - 1 else n
  }

  datatype Posting = Posting(entry: nat, flags: nat, elapsed: nat)

  /** From round q on nothing is posted. */
  ghost predicate Silent(posts: seq<(seq<Posting>, seq<Posting>, seq<Posting>)>, q: nat) {
    forall k :: q <= k < |posts| ==> posts[k] == ([], [], [])
  }

  datatype Visit = Visit(entry: nat, flags: nat, cpu: nat)

  /** What the visitor is told about an entry: nothing if there is nothing to tell, or if it is entry 0. */
  ghost function VisitOf(j: nat, e: Slot): seq<Visit> {
    if (e.cpu != 0 || e.flags != 0) && j != 0 then [Visit(j, e.flags, e.cpu)] else []
  }

  /** What the visitor is told about the entries of a path. */
  ghost function Visits(s: seq<Slot>, path: seq<nat>): seq<Visit>
    requires forall k :: 0 <= k < |path| ==> path[k] < |s|
  {
    if path == [] then [] else Visits(s, path[..|path| - 1]) + VisitOf(path[|path| - 1], s[path[|path| - 1]])
  }

  /** The visits are those of the entries listed but entry 0 that have flags or cycles, one for each, and tell these
      flags and cycles. */
  ghost predicate EachOnce(s: seq<Slot>, path: seq<nat>, vs: seq<Visit>)
    requires forall k :: 0 <= k < |path| ==> path[k] < |s|
  {
    && Distinct(vs)
    && forall v :: v in vs <==> v.entry in path && v.entry != 0 && v.flags == s[v.entry].flags
                                && v.cpu == s[v.entry].cpu && (v.flags != 0 || v.cpu != 0)
  }

  lemma FirstOnes(p: seq<nat>, k: nat)
    requires k <= |p| && Distinct(p)
    ensures Distinct(p[..k])
  {
  }

  /** Every entry of the path but entry 0 that has flags or cycles is told about once, in the order of the path, with
      these flags and cycles; nothing else is told. */
  lemma {:induction false} VisitsOnce(s: seq<Slot>, path: seq<nat>)
    requires Distinct(path) && forall k :: 0 <= k < |path| ==> path[k] < |s|
    ensures EachOnce(s, path, Visits(s, path))
  {
    if path != [] {
      var n := |path| - 1;
      var front, last := path[..n], path[n];
      assert path == front + [last];
      assert Distinct(front) && last !in front;
      VisitsOnce(s, front);
      forall v | v in VisitOf(last, s[last])
        ensures v !in Visits(s, front)
      {
      }
      DistinctConcat(Visits(s, front), VisitOf(last, s[last]));
    }
  }

  /** The cycles that the visitor has been told about entry j. */
  ghost function ToldCycles(told: seq<Visit>, j: nat): nat {
    if told == [] then 0
    else ToldCycles(told[..|told| - 1], j) + if told[|told| - 1].entry == j then told[|told| - 1].cpu else 0
  }

  lemma ToldMore(told: seq<Visit>, v: Visit, j: nat)
    ensures ToldCycles(told + [v], j) == ToldCycles(told, j) + if v.entry == j then v.cpu else 0
  {
    assert (told + [v])[..|told|] == told;
  }

  /** What has been taken from an entry has been told, or is about to be. */
  ghost predicate ToldOk(told: seq<Visit>, delivered: seq<nat>, cur: nat, pc: Pc) {
    && (pc.Visited? && cur == 0 ==> pc.cpu == 0)
    && forall j :: 0 <= j < |delivered| ==>
         ToldCycles(told, j) + (if pc.Visited? && j == cur then pc.cpu else 0) == delivered[j]
  }

  lemma NowTold(told: seq<Visit>, delivered: seq<nat>, cur: nat, pc: Pc, cur': nat)
    requires ToldOk(told, delivered, cur, pc) && pc.Visited? && cur < |delivered|
    ensures ToldOk(if (pc.cpu != 0 || pc.flags != 0) && cur != 0 then told + [Visit(cur, pc.flags, pc.cpu)] else told,
                   delivered, cur', Ready)
  {
    forall j | 0 <= j < |delivered|
      ensures ToldCycles(told + [Visit(cur, pc.flags, pc.cpu)], j)
              == ToldCycles(told, j) + if j == cur then pc.cpu else 0
    {
      ToldMore(told, Visit(cur, pc.flags, pc.cpu), j);
    }
  }

  lemma NowTaken(told: seq<Visit>, delivered: seq<nat>, cur: nat, id: nat, flags: nat, cpu: nat)
    requires ToldOk(told, delivered, cur, Taken(id, flags)) && cur < |delivered| && (cur == 0 ==> cpu == 0)
    ensures ToldOk(told, delivered[cur := delivered[cur] + cpu], cur, Visited(id, flags, cpu))
  {
  }

  /** The flags of entry j after posts in a row: the last that were not nil. */
  ghost function LastFlags(ps: seq<Posting>, j: nat, flags: nat): nat {
    if ps == [] then flags
    else
      var p := ps[|ps| - 1];
      if p.entry == j && 0 < j < NUM_SCHED_EVTS && p.elapsed < WORD && p.flags != EVT_NIL then p.flags
      else LastFlags(ps[..|ps| - 1], j, flags)
  }

  // ----- what each atomic step does to the page

  datatype Page = Page(s: seq<Slot>, prev: nat, cur: nat, pc: Pc, told: seq<Visit>)

  /** A post: the counter of the entry saturates, flags that are not nil replace those it has, and it is the last of the
      list unless it was listed. */
  ghost predicate Posted(p: Page, i: nat, flags: nat, elapsed: nat, q: Page) {
    && i < |p.s| == |q.s| && p.prev < |p.s| && q.cur == p.cur && q.pc == p.pc && q.told == p.told
    && (forall j :: 0 <= j < |p.s| && j != i ==> q.s[j].flags == p.s[j].flags && q.s[j].cpu == p.s[j].cpu)
    && q.s[i].flags == (if flags != EVT_NIL then flags else p.s[i].flags)
    && q.s[i].cpu == (if p.s[i].cpu + elapsed < WORD then p.s[i].cpu + elapsed else WORD - 1)
    && var listed := p.prev == i || p.s[i].next != 0;
       && q.prev == (if listed then p.prev else i)
       && forall j :: 0 <= j < |p.s| ==> q.s[j].next == if !listed && j == p.prev then i else p.s[j].next
  }

  lemma IsPosted(p: Page, i: nat, flags: nat, elapsed: nat, mid: seq<Slot>, q: Page)
    requires i < |p.s| && p.prev < |p.s| && p.s[i].cpu < WORD && elapsed < WORD
    requires mid == p.s[i := Slot(p.s[i].next, if flags != EVT_NIL then flags else p.s[i].flags,
                                  Accumulated(p.s[i].cpu, elapsed))]
    requires SameContents(mid, q.s) && q.cur == p.cur && q.pc == p.pc && q.told == p.told
    requires var listed := p.prev == i || mid[i].next != 0;
             && q.prev == (if listed then p.prev else i)
             && forall j :: 0 <= j < |q.s| ==> q.s[j].next == if !listed && j == p.prev then i else mid[j].next
    ensures Posted(p, i, flags, elapsed, q)
  {
  }

  lemma PostedFacts(p: Page, i: nat, flags: nat, elapsed: nat, q: Page)
    requires Posted(p, i, flags, elapsed, q) && p.s[i].cpu < WORD && elapsed < WORD
    ensures |q.s| == |p.s| && q.s[i].cpu == Accumulated(p.s[i].cpu, elapsed)
    ensures forall j :: 0 <= j < |p.s| && j != i ==> q.s[j].flags == p.s[j].flags && q.s[j].cpu == p.s[j].cpu
  {
  }

  /** What an atomic step does; one that is not possible does nothing. */
  ghost predicate Stepped(p: Page, a: Act, q: Page) {
    match a
    case PostEvent(i, flags, elapsed) =>
      if 0 < i < NUM_SCHED_EVTS && elapsed < WORD then Posted(p, i, flags, elapsed, q) else q == p
    case TakeFirst =>
      if p.pc.Ready? && p.cur < |p.s|
      then q == p.(pc := Taken(p.s[p.cur].next, p.s[p.cur].flags),
                   s := p.s[p.cur := Slot(0, 0, p.s[p.cur].cpu)])
      else q == p
    case TakeSecond =>
      if p.pc.Taken? && p.cur < |p.s|
      then q == p.(pc := Visited(p.pc.id, p.pc.flags, p.s[p.cur].cpu), s := p.s[p.cur := p.s[p.cur].(cpu := 0)])
      else q == p
    case MoveOn =>
      if p.pc.Visited?
      then q == p.(pc := Ready, cur := if p.pc.id == 0 then p.cur else p.pc.id,
                   told := p.told + VisitOf(p.cur, Slot(0, p.pc.flags, p.pc.cpu)))
      else q == p
  }

  /** The pages are those that the steps lead through. */
  ghost predicate IsRun(ps: seq<Page>, acts: seq<Act>) {
    |ps| == |acts| + 1 && forall i :: 0 <= i < |acts| ==> Stepped(ps[i], acts[i], ps[i + 1])
  }

  lemma LongerRun(ps: seq<Page>, acts: seq<Act>, i: nat, q: Page)
    requires i < |acts| && |ps| == i + 1 && IsRun(ps, acts[..i]) && Stepped(ps[i], acts[i], q)
    ensures IsRun(ps + [q], acts[..i + 1])
  {
    hide Stepped;
    forall j | 0 <= j < i + 1
      ensures Stepped((ps + [q])[j], acts[..i + 1][j], (ps + [q])[j + 1])
    {
      assert j < i ==> acts[..i][j] == acts[j] && Stepped(ps[j], acts[..i][j], ps[j + 1]);
    }
  }

  // ----- the path from the consumer to the kernel's tail

  /** The links of the entries of the path, and no others, lead from each to the next. */
  ghost predicate Linked(s: seq<Slot>, path: seq<nat>) {
    && path != [] && Distinct(path)
    && (forall k :: 0 <= k < |path| ==> path[k] < |s| && (k > 0 ==> path[k] != 0))
    && (forall k :: 0 <= k < |path| - 1 ==> s[path[k]].next == path[k + 1])
    && (forall j :: 0 <= j < |s| && (j !in path || j == path[|path| - 1]) ==> s[j].next == 0)
  }

  /** Entries off the path have nothing to deliver, but for the cycles of the entry being visited. */
  ghost predicate NothingElse(s: seq<Slot>, path: seq<nat>, visiting: Option<nat>) {
    && (forall j :: 0 <= j < |s| && j !in path ==> s[j].flags == 0)
    && (forall j :: 0 <= j < |s| && j !in path && Some(j) != visiting ==> s[j].cpu == 0)
  }

  /** What has been posted to an entry has been delivered or is stored there, unless its counter saturated. */
  ghost predicate Conserved(s: seq<Slot>, posted: seq<nat>, delivered: seq<nat>, full: set<nat>) {
    && |posted| == |delivered| == |s|
    && (forall j :: 0 <= j < |s| ==> s[j].cpu < WORD && delivered[j] + s[j].cpu <= posted[j])
    && (forall j :: 0 <= j < |s| && j !in full ==> posted[j] == delivered[j] + s[j].cpu)
  }

  ghost function WithEntry(path: seq<nat>, i: nat): seq<nat> {
    if i in path then path else path + [i]
  }

  ghost predicate SameContents(s: seq<Slot>, t: seq<Slot>) {
    |t| == |s| && forall j :: 0 <= j < |s| ==> t[j].flags == s[j].flags && t[j].cpu == s[j].cpu
  }

  /** An entry that is not at the tail and has no link is on no path, so appending it closes no cycle. */
  lemma Append(s: seq<Slot>, path: seq<nat>, i: nat)
    requires Linked(s, path) && 0 < i < |s| && path[|path| - 1] != i && s[i].next == 0
    ensures i !in path && Linked(s[path[|path| - 1] := s[path[|path| - 1]].(next := i)], path + [i])
  {
    var last := path[|path| - 1];
    forall k | 0 <= k < |path| - 1
      ensures path[k] != i
    {
      assert s[path[k]].next == path[k + 1] != 0;
    }
    var t := s[last := s[last].(next := i)];
    forall k | 0 <= k < |path|
      ensures t[(path + [i])[k]].next == (path + [i])[k + 1]
    {
      if k < |path| - 1 {
        assert path[k] != last;
      }
    }
    assert last in path;
  }

  lemma SameLinks(s: seq<Slot>, t: seq<Slot>, path: seq<nat>)
    requires Linked(s, path) && |t| == |s| && forall j :: 0 <= j < |s| ==> t[j].next == s[j].next
    ensures Linked(t, path)
  {
  }

  lemma StillNothing(s: seq<Slot>, path: seq<nat>, t: seq<Slot>, p: seq<nat>, i: nat, visiting: Option<nat>)
    requires NothingElse(s, path, visiting) && i in p && (forall j :: j in path ==> j in p)
    requires |t| == |s| && forall j :: 0 <= j < |s| && j != i ==> t[j].flags == s[j].flags && t[j].cpu == s[j].cpu
    ensures NothingElse(t, p, visiting)
  {
  }

  lemma PostConserves(s: seq<Slot>, posted: seq<nat>, delivered: seq<nat>, full: set<nat>, t: seq<Slot>, i: nat,
                      elapsed: nat)
    requires Conserved(s, posted, delivered, full) && i < |s| && elapsed < WORD
    requires |t| == |s| && t[i].cpu == Accumulated(s[i].cpu, elapsed)
    requires forall j :: 0 <= j < |s| && j != i ==> t[j].cpu == s[j].cpu
    ensures Conserved(t, posted[i := posted[i] + elapsed], delivered,
                      if s[i].cpu + elapsed < WORD then full else full + {i})
  {
  }

  lemma InTail(path: seq<nat>)
    requires path != [] && Distinct(path)
    ensures Distinct(path[1..]) && path[0] !in path[1..] && forall j :: j in path <==> j == path[0] || j in path[1..]
  {
    assert path == [path[0]] + path[1..];
  }

  /** The list without the entry at its head, whose link has been taken. */
  lemma Follow(s: seq<Slot>, path: seq<nat>)
    requires Linked(s, path) && |path| > 1
    ensures path[1] == s[path[0]].next != 0 && Linked(s[path[0] := s[path[0]].(next := 0, flags := 0)], path[1..])
  {
    var t, rest := s[path[0] := s[path[0]].(next := 0, flags := 0)], path[1..];
    InTail(path);
    assert s[path[0]].next == path[1];
    forall k | 0 <= k < |rest| - 1
      ensures t[rest[k]].next == rest[k + 1]
    {
      assert rest[k] == path[k + 1] && rest[k] in rest;
    }
    forall j | 0 <= j < |t| && (j !in rest || j == rest[|rest| - 1])
      ensures t[j].next == 0
    {
    }
  }

  lemma FollowLast(s: seq<Slot>, path: seq<nat>)
    requires Linked(s, path) && |path| == 1
    ensures s[path[0]].next == 0 && Linked(s[path[0] := s[path[0]].(next := 0, flags := 0)], path)
  {
  }

  class EventPage {
    var s: seq<Slot>
    var prev: nat
    var cur: nat
    var pc: Pc
    var told: seq<Visit>
    ghost var path: seq<nat>
    ghost var posted: seq<nat>
    ghost var delivered: seq<nat>
    ghost var full: set<nat>

    ghost function View(): Page
      reads this`s, this`prev, this`cur, this`pc, this`told
    {
      Page(s, prev, cur, pc, told)
    }

    /** The entry at which the consumer will go on. */
    function Start(): nat
      reads this`cur, this`pc
    {
      if pc.Ready? || pc.id == 0 then cur else pc.id
    }

    ghost predicate Valid()
      reads this
    {
      && ListOk() && path[0] == Start() && cur < |s|
      && NothingElse(s, path, if pc.Taken? then Some(cur) else None)
      && Conserved(s, posted, delivered, full)
      && s[0].flags == 0 && s[0].cpu == 0 && ToldOk(told, delivered, cur, pc)
    }

    constructor ()
      ensures Valid() && pc.Ready? && path == [0] && full == {} && told == []
    {
      s := seq(NUM_SCHED_EVTS, i => Slot(0, 0, 0));
      prev, cur, pc, told := 0, 0, Ready, [];
      path, full := [0], {};
      posted, delivered := seq(NUM_SCHED_EVTS, i => 0), seq(NUM_SCHED_EVTS, i => 0);
    }

    /** The links of the list are as they should be. */
    ghost predicate ListOk()
      reads this`s, this`prev, this`path
    {
      |s| == NUM_SCHED_EVTS && path != [] && Linked(s, path) && path[|path| - 1] == prev
    }

    /** update_evt_list: the entry is appended unless it is in the list already. */
    method Enqueue(i: nat)
      requires ListOk() && 0 < i < NUM_SCHED_EVTS
      modifies this`s, this`prev, this`path
      ensures ListOk() && SameContents(old(s), s) && path == WithEntry(old(path), i) && old(prev) < |s|
      ensures var listed := old(prev) == i || old(s)[i].next != 0;
              && prev == (if listed then old(prev) else i)
              && forall j :: 0 <= j < |s| ==> s[j].next == if !listed && j == old(prev) then i else old(s)[j].next
    {
      if prev != i && s[i].next == 0 {
        Append(s, path, i);
        hide Linked;
        s := s[prev := s[prev].(next := i)];
        prev := i;
        path := path + [i];
      } else {
        OnPath(s, path, i);
      }
    }

    /** update_thd_evt_state, for one scheduler. */
    method Post(i: nat, flags: nat, elapsed: nat)
      requires Valid() && 0 < i < NUM_SCHED_EVTS && elapsed < WORD
      modifies this`s, this`prev, this`path, this`posted, this`full
      ensures Valid() && path == WithEntry(old(path), i) && Posted(old(View()), i, flags, elapsed, View())
      ensures posted == old(posted)[i := old(posted)[i] + elapsed]
      ensures full == if old(s[i].cpu) + elapsed < WORD then old(full) else old(full) + {i}
    {
      hide Linked;
      hide NothingElse;
      hide Conserved;
      hide ToldOk;
      hide Posted;
      hide SameContents;
      ghost var was, p, v := s, path, View();
      InRange(s, posted, delivered, full, i);
      SetContents(i, flags, elapsed);
      ghost var mid := s;
      SameLinks(was, mid, path);
      Enqueue(i);
      IsPosted(v, i, flags, elapsed, mid, View());
      PostedFacts(v, i, flags, elapsed, View());
      StillNothing(was, p, s, path, i, if pc.Taken? then Some(cur) else None);
      PostConserves(was, posted, delivered, full, s, i, elapsed);
      full := if was[i].cpu + elapsed < WORD then full else full + {i};
      posted := posted[i := posted[i] + elapsed];
    }

    method SetContents(i: nat, flags: nat, elapsed: nat)
      requires i < |s| && s[i].cpu < WORD && elapsed < WORD
      modifies this`s
      ensures s == old(s)[i := Slot(old(s)[i].next, if flags != EVT_NIL then flags else old(s)[i].flags,
                                    Accumulated(old(s)[i].cpu, elapsed))]
    {
      if elapsed != 0 {
        s := s[i := s[i].(cpu := Accumulated(s[i].cpu, elapsed))];
      }
      if flags != EVT_NIL {
        s := s[i := s[i].(flags := flags)];
      }
    }

    /** The exchange that takes the link and the flags of the current entry.  A link of 0 means that no other
        entry has anything to deliver. */
    method TakeLinks()
      requires Valid() && pc.Ready?
      modifies this`s, this`pc, this`path
      ensures Valid() && pc == Taken(old(s)[cur].next, old(s)[cur].flags)
      ensures s == old(s)[cur := old(s)[cur].(next := 0, flags := 0)]
      ensures path == if pc.id == 0 then old(path) else old(path)[1..]
      ensures pc.id == 0 <==> |old(path)| == 1
      ensures pc.id == 0 ==> forall j :: 0 <= j < |s| && j != cur ==> old(s)[j].flags == 0 && old(s)[j].cpu == 0
    {
      hide Linked;
      hide NothingElse;
      hide Conserved;
      if |path| > 1 {
        Follow(s, path);
      } else {
        FollowLast(s, path);
      }
      PathFacts(s, path);
      LeaveNothing(s, path);
      SameCycles(s, s[cur := s[cur].(next := 0, flags := 0)], posted, delivered, full);
      pc := Taken(s[cur].next, s[cur].flags);
      s := s[cur := s[cur].(next := 0, flags := 0)];
      path := if pc.id == 0 then path else path[1..];
    }

    /** The exchange that takes the cycles of the current entry. */
    method TakeCycles()
      requires Valid() && pc.Taken?
      modifies this`s, this`pc, this`delivered
      ensures Valid() && pc == Visited(old(pc).id, old(pc).flags, old(s)[cur].cpu)
      ensures s == old(s)[cur := old(s)[cur].(cpu := 0)]
      ensures delivered == old(delivered)[cur := old(delivered)[cur] + pc.cpu]
    {
      hide Linked;
      hide NothingElse;
      hide Conserved;
      hide ToldOk;
      var t := s[cur := s[cur].(cpu := 0)];
      InRange(s, posted, delivered, full, cur);
      SameLinks(s, t, path);
      NoneVisited(s, path, cur);
      TakeConserves(s, posted, delivered, full, cur);
      NowTaken(told, delivered, cur, pc.id, pc.flags, s[cur].cpu);
      pc := Visited(pc.id, pc.flags, s[cur].cpu);
      delivered := delivered[cur := delivered[cur] + s[cur].cpu];
      s := t;
    }

    /** The end of a round of the loop: the visitor is told what has been taken, and the consumer moves on. */
    method Advance() returns (more: bool)
      requires Valid() && pc.Visited?
      modifies this`pc, this`cur, this`told
      ensures Valid() && pc.Ready? && cur == old(Start()) && (more <==> old(pc).id != 0)
      ensures told == old(told) + VisitOf(old(cur), Slot(0, old(pc).flags, old(pc).cpu))
    {
      hide Linked;
      hide NothingElse;
      hide Conserved;
      hide ToldOk;
      PathFacts(s, path);
      InRange(s, posted, delivered, full, cur);
      NowTold(told, delivered, cur, pc, Start());
      if (pc.cpu != 0 || pc.flags != 0) && cur != 0 {
        told := told + [Visit(cur, pc.flags, pc.cpu)];
      }
      more := pc.id != 0;
      if more {
        cur := pc.id;
      }
      pc := Ready;
    }

    /** Nothing is left to deliver, and all cycles have been, but for entries whose counter saturated. */
    ghost predicate Drained()
      reads this`s, this`posted, this`delivered, this`full
    {
      && |posted| == |delivered| == |s| && (forall j :: 0 <= j < |s| ==> s[j] == Slot(0, 0, 0))
      && (forall j :: 0 <= j < |s| && j !in full ==> delivered[j] == posted[j])
    }

    /** A round of the loop of cos_sched_process_events with no post in between. */
    method Round() returns (more: bool)
      requires Valid() && pc.Ready?
      modifies this`s, this`pc, this`path, this`cur, this`delivered, this`told
      ensures Valid() && pc.Ready? && (more <==> |old(path)| > 1)
      ensures told == old(told) + VisitOf(old(path)[0], old(s)[old(path)[0]])
      ensures s == old(s)[old(path)[0] := Slot(0, 0, 0)]
      ensures path == if more then old(path)[1..] else old(path)
      ensures !more ==> Drained()
    {
      hide Linked;
      hide NothingElse;
      hide Conserved;
      hide ToldOk;
      TakeLinks();
      TakeCycles();
      more := Advance();
      if !more {
        AllEmpty(s, path, posted, delivered, full);
      }
    }

    lemma AllTold()
      requires Valid() && pc.Ready?
      ensures forall j :: 0 <= j < |delivered| ==> ToldCycles(told, j) == delivered[j]
    {
    }

    /** The round that visits entry k of the path p, whose entries from there on are as they were. */
    method VisitNext(ghost was: seq<Slot>, ghost p: seq<nat>, ghost k: nat) returns (more: bool)
      requires Valid() && pc.Ready? && k < |p| && path == p[k..] && Distinct(p) && SameOn(was, s, p[k..])
      modifies this`s, this`pc, this`path, this`cur, this`delivered, this`told
      ensures Valid() && pc.Ready? && p[k] < |was| && told == old(told) + VisitOf(p[k], was[p[k]])
      ensures (more <==> k + 1 < |p|) && (more ==> path == p[k + 1..] && SameOn(was, s, p[k + 1..]))
      ensures !more ==> Drained()
    {
      hide Valid;
      hide Drained;
      NextSame(was, s, p, k);
      hide SameOn;
      hide Distinct;
      hide VisitOf;
      more := Round();
    }

    /** The loop of cos_sched_process_events. */
    method ProcessLoop(amnt: nat)
      requires Valid() && pc.Ready? && amnt < WORD
      modifies this`s, this`pc, this`path, this`cur, this`delivered, this`told
      ensures Valid() && pc.Ready? && forall k :: 0 <= k < |old(path)| ==> old(path)[k] < |old(s)|
      ensures var n := if amnt == 0 || amnt > |old(path)| then |old(path)| else amnt;
              told == old(told) + Visits(old(s), old(path)[..n])
      ensures amnt == 0 ==> Drained()
    {
      hide Linked;
      hide NothingElse;
      hide Conserved;
      hide ToldOk;
      ghost var was, p := s, path;
      ShortPath(s, path);
      PathFacts(s, path);
      assert |p| <= NUM_SCHED_EVTS && Distinct(p);
      hide Valid;
      hide Distinct;
      hide Drained;
      var left: nat := if amnt == 0 then WORD - 1 else amnt;
      ghost var k: nat := 0;
      ghost var vs: seq<Visit> := [];
      var more := true;
      assert p[..0] == [] && p[0..] == p;
      assert Visits(was, []) == [] && SameOn(was, s, p);
      hide Visits;
      hide VisitOf;
      hide SameOn;
      while left > 0 && more
        invariant Valid() && pc.Ready? && left + k == (if amnt == 0 then WORD - 1 else amnt)
        invariant if more then k < |p| && path == p[k..] else k == |p|
        invariant more ==> SameOn(was, s, p[k..])
        invariant told == old(told) + vs && vs == Visits(was, p[..k])
        invariant !more ==> Drained()
        decreases left
      {
        VisitsStep(was, p, k);
        more := VisitNext(was, p, k);
        vs := vs + VisitOf(p[k], was[p[k]]);
        left, k := left - 1, k + 1;
      }
      assert k == if amnt == 0 || amnt > |p| then |p| else amnt;
    }

    /** cos_sched_process_events with no post in between: the entries of the list are visited in order, once
        each, and with no bound on their number nothing is left to deliver. */
    method ProcessEvents(amnt: nat)
      requires Valid() && pc.Ready? && amnt < WORD
      modifies this`s, this`pc, this`path, this`cur, this`delivered, this`told
      ensures Valid() && pc.Ready? && forall k :: 0 <= k < |old(path)| ==> old(path)[k] < |old(s)|
      ensures var n := if amnt == 0 || amnt > |old(path)| then |old(path)| else amnt;
              && told == old(told) + Visits(old(s), old(path)[..n])
              && EachOnce(old(s), old(path)[..n], told[|old(told)|..])
      ensures amnt == 0 ==> Drained()
      ensures forall j :: 0 <= j < |delivered| ==> ToldCycles(told, j) == delivered[j]
    {
      ghost var was, p, before := s, path, told;
      ShortPath(s, path);
      PathFacts(s, path);
      hide *;
      ProcessLoop(amnt);
      AllTold();
      ghost var n := if amnt == 0 || amnt > |p| then |p| else amnt;
      FirstOnes(p, n);
      VisitsOnce(was, p[..n]);
      assert told[|before|..] == Visits(was, p[..n]);
    }

    /** Posts that the kernel makes in a row. */
    method PostAll(ps: seq<Posting>)
      requires Valid()
      modifies this`s, this`prev, this`path, this`posted, this`full
      ensures Valid() && path[0] == old(path)[0] && (forall j :: j in old(path) ==> j in path) && full >= old(full)
      ensures |posted| == |old(posted)| && forall j :: 0 <= j < |posted| ==> posted[j] >= old(posted)[j]
      ensures ps == [] ==> path == old(path)
      ensures |s| == |old(s)| && forall j :: 0 <= j < |s| ==> s[j].flags == LastFlags(ps, j, old(s)[j].flags)
    {
      hide Linked;
      hide NothingElse;
      hide Conserved;
      hide ToldOk;
      assert ps[..0] == [];
      for k := 0 to |ps|
        invariant Valid() && path[0] == old(path)[0] && (forall j :: j in old(path) ==> j in path) && full >= old(full)
        invariant |posted| == |old(posted)| && forall j :: 0 <= j < |posted| ==> posted[j] >= old(posted)[j]
        invariant k == 0 ==> path == old(path)
        invariant |s| == |old(s)| && forall j :: 0 <= j < |s| ==> s[j].flags == LastFlags(ps[..k], j, old(s)[j].flags)
      {
        assert ps[..k + 1][..k] == ps[..k];
        var p := ps[k];
        if 0 < p.entry < NUM_SCHED_EVTS && p.elapsed < WORD {
          InRange(s, posted, delivered, full, p.entry);
          Post(p.entry, p.flags, p.elapsed);
        }
      }
      assert ps[..|ps|] == ps;
    }

    /** Of what had been posted to the entries when `at` was, everything has been delivered but to those of `due`, which
        are still to come on the list; entries whose counter saturated aside. */
    ghost predicate Owed(due: set<nat>, at: seq<nat>, visiting: set<nat>)
      reads this`path, this`posted, this`delivered, this`full
    {
      && |at| == |posted| == |delivered| && (forall j :: 0 <= j < |at| ==> at[j] <= posted[j])
      && (forall j :: j in due && j !in visiting ==> j in path)
      && (forall j :: 0 <= j < |at| && j !in due && j !in full ==> delivered[j] >= at[j])
    }

    /** A round of the loop of cos_sched_process_events, with posts before and between its steps. */
    method DrainRound(posts: (seq<Posting>, seq<Posting>, seq<Posting>), ghost due: set<nat>, ghost at: seq<nat>)
      returns (more: bool, ghost link: nat)
      requires Valid() && pc.Ready? && Owed(due, at, {})
      modifies this`s, this`prev, this`pc, this`path, this`cur, this`posted, this`delivered, this`full, this`told
      ensures Valid() && pc.Ready? && Owed(due - {old(cur)}, at, {}) && full >= old(full)
      ensures var j := old(cur);
              && j < |old(s)| && j < |old(delivered)| == |delivered| && delivered[j] >= old(delivered)[j]
              && told == old(told) + VisitOf(j, Slot(0, LastFlags(posts.0, j, old(s)[j].flags),
                                                     delivered[j] - old(delivered)[j]))
              && delivered == old(delivered)[j := delivered[j]]
      ensures (more <==> link != 0) && cur == (if more then link else old(cur)) && (!more ==> due <= {old(cur)})
      ensures 1 <= |path| <= NUM_SCHED_EVTS
      ensures posts == ([], [], []) ==> (more <==> |old(path)| > 1) && |path| == if more then |old(path)| - 1 else 1
    {
      hide Linked;
      hide NothingElse;
      hide Conserved;
      hide ToldOk;
      hide LastFlags;
      ghost var here := cur;
      link := DrainFirst(posts.0, due, at);
      more := DrainSecond(posts.1, posts.2, due, at);
    }

    /** Its first half: the exchange of links and flags. */
    method DrainFirst(before: seq<Posting>, ghost due: set<nat>, ghost at: seq<nat>) returns (ghost link: nat)
      requires Valid() && pc.Ready? && Owed(due, at, {})
      modifies this`s, this`prev, this`pc, this`path, this`posted, this`full
      ensures Valid() && Owed(due, at, {cur}) && full >= old(full) && cur < |s| == |old(s)|
      ensures pc == Taken(link, LastFlags(before, cur, old(s)[cur].flags))
      ensures (link == 0 ==> path == [cur] && due <= {cur}) && 1 <= |path|
      ensures before == [] ==>
                (link != 0 <==> |old(path)| > 1) && path == if link == 0 then old(path) else old(path)[1..]
    {
      hide Linked;
      hide NothingElse;
      hide Conserved;
      hide ToldOk;
      PostAll(before);
      hide LastFlags;
      assert Owed(due, at, {});
      TakeLinks();
      link := pc.id;
      assert link == 0 ==> path == [cur];
    }

    /** Its second half: the exchange of the cycles, and the visit. */
    method DrainSecond(between: seq<Posting>, after: seq<Posting>, ghost due: set<nat>, ghost at: seq<nat>)
      returns (more: bool)
      requires Valid() && pc.Taken? && Owed(due, at, {cur})
      modifies this`s, this`prev, this`pc, this`path, this`cur, this`posted, this`delivered, this`full, this`told
      ensures Valid() && pc.Ready? && Owed(due - {old(cur)}, at, {}) && full >= old(full)
      ensures (more <==> old(pc).id != 0) && cur == (if more then old(pc).id else old(cur)) && |path| <= NUM_SCHED_EVTS
      ensures between == after == [] ==> path == old(path)
      ensures var j := old(cur);
              && j < |old(delivered)| == |delivered| && delivered[j] >= old(delivered)[j]
              && delivered == old(delivered)[j := delivered[j]]
              && told == old(told) + VisitOf(j, Slot(0, old(pc).flags, delivered[j] - old(delivered)[j]))
    {
      hide Linked;
      hide NothingElse;
      hide Conserved;
      hide ToldOk;
      hide LastFlags;
      PostAll(between);
      assert Owed(due, at, {cur});
      Balance(s, posted, delivered, full, cur);
      TakeCycles();
      assert Owed(due - {cur}, at, {});
      hide VisitOf;
      PostAll(after);
      more := Advance();
      ShortPath(s, path);
    }

    /** cos_sched_process_events without a bound, under every interleaving with posts: when it ends, which is at a link
        of 0, it has visited every entry that was on the list when it began, and has delivered what had been posted.  It
        ends within as many rounds as there are entries once there are no more posts. */
    method Drain(posts: seq<(seq<Posting>, seq<Posting>, seq<Posting>)>) returns (ended: bool, ghost visited: seq<nat>)
      requires Valid() && pc.Ready?
      modifies this`s, this`prev, this`pc, this`path, this`cur, this`posted, this`delivered, this`full, this`told
      ensures Valid() && pc.Ready? && |delivered| == |old(posted)| && (!ended ==> |visited| == |posts|)
      ensures old(told) <= told && forall j :: 0 <= j < |delivered| ==> ToldCycles(told, j) == delivered[j]
      ensures ended ==> forall j :: j in old(path) ==> j in visited
      ensures ended ==> forall j :: 0 <= j < |delivered| && j !in full ==> delivered[j] >= old(posted)[j]
      ensures forall q: nat :: Silent(posts, q) && q + NUM_SCHED_EVTS <= |posts| ==> ended
    {
      ghost var due := Elems(path);
      visited := [];
      NothingOwed(s, path, posted, delivered, full);
      ShortPath(s, path);
      ended := false;
      for k := 0 to |posts|
        invariant Valid() && pc.Ready? && Owed(due, old(posted), {}) && !ended && |visited| == k
        invariant forall j :: j in old(path) ==> j in due || j in visited
        invariant old(told) <= told && 1 <= |path| <= NUM_SCHED_EVTS
        invariant forall q: nat :: q <= k && Silent(posts, q) ==> |path| + k - q <= NUM_SCHED_EVTS
      {
        hide Valid;
        visited := visited + [cur];
        ghost var was, first := due, cur;
        var more, link := DrainRound(posts[k], was, old(posted));
        due := due - {first};
        if !more {
          ended := true;
          break;
        }
      }
    }

    /** One atomic step of the kernel or of the consumer. */
    method Step(a: Act)
      requires Valid()
      modifies this
      ensures Valid() && Stepped(old(View()), a, View())
    {
      hide Linked;
      hide NothingElse;
      hide Conserved;
      hide ToldOk;
      hide Posted;
      match a {
        case PostEvent(i, flags, elapsed) =>
          if 0 < i < NUM_SCHED_EVTS && elapsed < WORD {
            Post(i, flags, elapsed);
          }
        case TakeFirst =>
          if pc.Ready? {
            TakeLinks();
          }
        case TakeSecond =>
          if pc.Taken? {
            TakeCycles();
          }
        case MoveOn =>
          if pc.Visited? {
            var _ := Advance();
          }
      }
    }

    /** Every interleaving of posts with the steps of the consumer keeps the list and the cycles. */
    method Run(acts: seq<Act>) returns (ghost ps: seq<Page>)
      requires Valid()
      modifies this
      ensures Valid() && |s| == |posted| == |delivered| && |path| <= |s|
      ensures IsRun(ps, acts) && ps[0] == old(View()) && ps[|acts|] == View()
      ensures forall j :: 0 <= j < |s| && j !in full ==>
                posted[j] == ToldCycles(told, j) + (if pc.Visited? && j == cur then pc.cpu else 0) + s[j].cpu
      ensures forall j :: 0 <= j < |s| && s[j].flags != 0 ==> j in path
      ensures forall j :: 0 <= j < |s| && s[j].cpu != 0 && (pc.Taken? ==> j != cur) ==> j in path
    {
      ps := [View()];
      for k := 0 to |acts|
        invariant Valid() && |ps| == k + 1 && ps[0] == old(View()) && ps[k] == View() && IsRun(ps, acts[..k])
      {
        hide Valid;
        hide Stepped;
        Step(acts[k]);
        LongerRun(ps, acts, k, View());
        ps := ps + [View()];
      }
      assert acts[..|acts|] == acts;
      ShortPath(s, path);
    }
  }

  lemma Balance(s: seq<Slot>, posted: seq<nat>, delivered: seq<nat>, full: set<nat>, i: nat)
    requires Conserved(s, posted, delivered, full) && i < |s|
    ensures |posted| == |delivered| == |s| && (i !in full ==> delivered[i] + s[i].cpu == posted[i])
  {
  }

  /** What has been posted off the list has been delivered. */
  lemma NothingOwed(s: seq<Slot>, path: seq<nat>, posted: seq<nat>, delivered: seq<nat>, full: set<nat>)
    requires Conserved(s, posted, delivered, full) && NothingElse(s, path, None)
    ensures |posted| == |delivered| == |s|
    ensures forall j :: 0 <= j < |s| && j !in path && j !in full ==> delivered[j] == posted[j]
  {
  }

  lemma InRange(s: seq<Slot>, posted: seq<nat>, delivered: seq<nat>, full: set<nat>, i: nat)
    requires Conserved(s, posted, delivered, full) && i < |s|
    ensures s[i].cpu < WORD && |posted| == |delivered| == |s|
  {
  }

  lemma OnPath(s: seq<Slot>, path: seq<nat>, i: nat)
    requires Linked(s, path) && i < |s| && (path[|path| - 1] == i || s[i].next != 0)
    ensures i in path
  {
  }

  lemma LeaveNothing(s: seq<Slot>, path: seq<nat>)
    requires path != [] && Distinct(path) && path[0] < |s| && NothingElse(s, path, None)
    ensures var t := s[path[0] := s[path[0]].(next := 0, flags := 0)];
            NothingElse(t, path[1..], Some(path[0])) && NothingElse(t, path, Some(path[0]))
    ensures |path| == 1 ==> forall j :: 0 <= j < |s| && j != path[0] ==> s[j].flags == 0 && s[j].cpu == 0
  {
    InTail(path);
  }

  lemma SameCycles(s: seq<Slot>, t: seq<Slot>, posted: seq<nat>, delivered: seq<nat>, full: set<nat>)
    requires Conserved(s, posted, delivered, full) && |t| == |s| && forall j :: 0 <= j < |s| ==> t[j].cpu == s[j].cpu
    ensures Conserved(t, posted, delivered, full)
  {
  }

  lemma NoneVisited(s: seq<Slot>, path: seq<nat>, i: nat)
    requires NothingElse(s, path, Some(i)) && i < |s|
    ensures NothingElse(s[i := s[i].(cpu := 0)], path, None)
  {
  }

  lemma TakeConserves(s: seq<Slot>, posted: seq<nat>, delivered: seq<nat>, full: set<nat>, i: nat)
    requires Conserved(s, posted, delivered, full) && i < |s|
    ensures Conserved(s[i := s[i].(cpu := 0)], posted, delivered[i := delivered[i] + s[i].cpu], full)
  {
  }

  lemma PathFacts(s: seq<Slot>, path: seq<nat>)
    requires Linked(s, path)
    ensures path[0] < |s| && Distinct(path)
  {
  }

  /** A path without repetition is no longer than the list of entries. */
  lemma ShortPath(s: seq<Slot>, path: seq<nat>)
    requires Linked(s, path)
    ensures |path| <= |s| && forall k :: 0 <= k < |path| ==> path[k] < |s|
  {
    DistinctCount(path);
    var all := seq(|s|, i => i);
    DistinctCount(all);
    assert forall x :: x in path ==> all[x] == x;
    SubsetSize(Elems(path), Elems(all));
  }

  /** The entries listed are as they were. */
  ghost predicate SameOn(was: seq<Slot>, now: seq<Slot>, path: seq<nat>) {
    |was| == |now| && forall k :: 0 <= k < |path| ==> path[k] < |was| && now[path[k]] == was[path[k]]
  }

  lemma VisitsStep(s: seq<Slot>, p: seq<nat>, k: nat)
    requires k < |p| && forall i :: 0 <= i < |p| ==> p[i] < |s|
    ensures Visits(s, p[..k + 1]) == Visits(s, p[..k]) + VisitOf(p[k], s[p[k]])
  {
    PrefixStep(p, k);
    assert p[..k + 1][..k] == p[..k];
  }

  lemma NextSame(was: seq<Slot>, now: seq<Slot>, p: seq<nat>, k: nat)
    requires k < |p| && SameOn(was, now, p[k..]) && Distinct(p)
    ensures p[k] < |was| && now[p[k]] == was[p[k]] && p[k..][0] == p[k] && p[k..][1..] == p[k + 1..]
    ensures SameOn(was, now[p[k] := Slot(0, 0, 0)], p[k + 1..])
  {
  }

  /** When the only entry of the path has been visited, no entry has anything to deliver. */
  lemma AllEmpty(s: seq<Slot>, path: seq<nat>, posted: seq<nat>, delivered: seq<nat>, full: set<nat>)
    requires Linked(s, path) && NothingElse(s, path, None) && |path| == 1
    requires s[path[0]].flags == 0 && s[path[0]].cpu == 0
    requires Conserved(s, posted, delivered, full)
    ensures forall j :: 0 <= j < |s| ==> s[j] == Slot(0, 0, 0)
    ensures |posted| == |delivered| == |s| && forall j :: 0 <= j < |s| && j !in full ==> delivered[j] == posted[j]
  {
  }
}
