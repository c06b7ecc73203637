/** The kernel's protection-domain system calls (src/kernel/inv.c, src/kernel/spd.c) on the tables of
    MpdState.  Every method keeps `Inv`, and so does every run. */
module MpdKernel {
  import opened Seqs
  import opened MpdState

  /** Composites `other` and `dest` of s0 while the members of the first move to the second. */
  ghost predicate Merging(s0: State, s: State, other: Cid, dest: Cid) {
    && other < |s0.comps| && dest < |s0.comps| && other != dest && |s.comps| == |s0.comps|
    && (forall d: nat :: d < |s.comps| ==> s.comps[d] == s0.comps[d].(members := s.comps[d].members))
    && s.freelist == s0.freelist && s.pool == s0.pool && s.stacks == s0.stacks
    && s.current.Keys == s0.current.Keys
    && (forall x :: x in s0.current ==>
          s.current[x] == s0.current[x] || (s0.current[x] == other && s.current[x] == dest))
    && s.pt.Keys == s0.pt.Keys && s0.comps[other].pgTbl in s.pt && s0.comps[dest].pgTbl in s.pt
    && (forall p :: p in s.pt && p != s0.comps[other].pgTbl && p != s0.comps[dest].pgTbl ==> s.pt[p] == s0.pt[p])
    && s.pt[s0.comps[other].pgTbl] + s.pt[s0.comps[dest].pgTbl]
       == s0.pt[s0.comps[other].pgTbl] + s0.pt[s0.comps[dest].pgTbl]
    && s0.pt[s0.comps[dest].pgTbl] <= s.pt[s0.comps[dest].pgTbl]
  }

  /** While other's members move, its frames may find their spd in either table. */
  ghost function MergeView(s0: State, other: Cid, dest: Cid): map<Table, set<Spd>>
    requires other < |s0.comps| && dest < |s0.comps|
    requires s0.comps[other].pgTbl in s0.pt && s0.comps[dest].pgTbl in s0.pt
  {
    s0.pt[s0.comps[other].pgTbl := s0.pt[s0.comps[other].pgTbl] + s0.pt[s0.comps[dest].pgTbl]]
  }

  lemma MergeStart(s: State, other: Cid, dest: Cid)
    requires Within(s, multiset{}, {}, s.pt) && other < |s.comps| && dest < |s.comps| && other != dest
    requires Active(s.comps[other]) && Active(s.comps[dest])
    ensures Merging(s, s, other, dest)
    ensures Within(s, multiset{}, {}, MergeView(s, other, dest))
  {
    assert MapsMembers(s, other, {}) && MapsMembers(s, dest, {});
    WiderView(s, multiset{}, {}, s.pt, MergeView(s, other, dest));
  }

  lemma MergeStep(s0: State, s: State, other: Cid, dest: Cid, view: map<Table, set<Spd>>)
    requires Merging(s0, s, other, dest) && Within(s, multiset{}, {}, view)
    requires Active(s.comps[other]) && Active(s.comps[dest]) && s.comps[other].members != []
    ensures var x := s.comps[other].members[0];
            && x in s.current && s.current[x] == other && CanMove(s, x, dest)
            && Within(Moved(s, x, dest, true), multiset{}, {}, view)
            && Merging(s0, Moved(s, x, dest, true), other, dest)
            && |Moved(s, x, dest, true).comps[other].members| < |s.comps[other].members|
  {
    hide FreeOk;
    hide RefOk;
    hide TreeOk;
    hide TableOk;
    hide FrameOk;
    hide MapsMembers;
    var x := s.comps[other].members[0];
    assert ListsMembers(s, other);
    assert x in s.comps[other].members;
    MoveKeeps(s, x, dest, true, multiset{}, {}, view);
    MoveIsPossible(s, x, dest, {});
    ActiveOwns(s);
    MergeMoves(s0, s, other, dest, x);
    WithoutElems(s.comps[other].members, x);
  }

  lemma MergeMoves(s0: State, s: State, other: Cid, dest: Cid, x: Spd)
    requires Merging(s0, s, other, dest) && CanMove(s, x, dest) && s.current[x] == other
    requires s.comps[other].pgTbl != s.comps[dest].pgTbl
    requires x in s.pt[s.comps[other].pgTbl]
    ensures Merging(s0, Moved(s, x, dest, true), other, dest)
  {
    assert x in s0.current;
    assert s0.current[x] == other;
  }

  /** With other emptied, all frames are served by the tables as they are, other's by the one of dest. */
  lemma MergeEnd(s0: State, s: State, other: Cid, dest: Cid, view: map<Table, set<Spd>>)
    requires Merging(s0, s, other, dest) && Within(s, multiset{}, {}, view)
    requires s0.comps[other].pgTbl in s0.pt && s0.comps[dest].pgTbl in s0.pt
    requires view == MergeView(s0, other, dest) && Active(s.comps[other]) && Active(s.comps[dest])
    requires s.comps[other].members == []
    ensures SharesTable(s, dest, other, view)
    ensures s.current == map x | x in s0.current :: if s0.current[x] == other then dest else s0.current[x]
  {
    hide FreeOk;
    hide TreeOk;
    hide TableOk;
    hide RefOk;
    hide FrameOk;
    assert MapsMembers(s, other, {});
    assert Elems<Spd>([]) == {};
    assert ListsMembers(s, other);
    forall x | x in s.current
      ensures s.current[x] != other
    {
      assert x !in s.comps[other].members;
    }
  }

  /** What the slave's frames may use under `view` is mapped in the master's table. */
  ghost predicate SharesTable(s: State, master: Cid, slave: Cid, view: map<Table, set<Spd>>) {
    && master < |s.comps| && slave < |s.comps| && view.Keys == s.pt.Keys
    && s.comps[slave].pgTbl in view && s.comps[master].pgTbl in view
    && view[s.comps[slave].pgTbl] <= s.pt[s.comps[master].pgTbl]
    && forall p :: p in view && p != s.comps[slave].pgTbl ==> view[p] <= s.pt[p]
  }

  lemma SubordinateNone(s: State, slave: Cid, master: Cid)
    requires CanSubordinate(s, slave, master)
    ensures SubordinateFirst(s, slave, master, 0) == s
  {
    assert SubordinateFirst(s, slave, master, 0).comps == s.comps;
  }

  /** The next composite of the slave's list, before it is handed over. */
  lemma SubordinateNext(s: State, slave: Cid, master: Cid, i: nat)
    requires CanSubordinate(s, slave, master) && TreeOk(s) && i < 1 + |s.comps[slave].subs|
    ensures var list := [slave] + s.comps[slave].subs;
            && list[i] < |s.comps| && list[i] != master && list[i] !in list[..i] && master !in list
            && list[..i + 1] == list[..i] + [list[i]]
            && s.comps[list[i]].master == if i == 0 then None else Some(slave)
    ensures i > 0 ==> slave in ([slave] + s.comps[slave].subs)[..i] && ([slave] + s.comps[slave].subs)[i] != slave
  {
    var list := [slave] + s.comps[slave].subs;
    assert ListsSubordinates(s, slave);
    DistinctConcat([slave], s.comps[slave].subs);
    assert list[i] in list;
    if i > 0 {
      assert list[..i][0] == slave;
    }
  }

  /** Composite n takes the master and its table; the master gains a reference. */
  function Handed(comps: seq<Composite>, n: Cid, master: Cid, shared: Table): (r: seq<Composite>)
    requires n < |comps| && master < |comps| && n != master
    ensures |r| == |comps|
  {
    comps[n := comps[n].(master := Some(master), pgTbl := shared)]
         [master := comps[master].(ref := comps[master].ref + 1)]
  }

  /** As Handed, and composite n had a reference on the slave, which is dropped. */
  function HandedOver(comps: seq<Composite>, n: Cid, master: Cid, slave: Cid, shared: Table): (r: seq<Composite>)
    requires n < |comps| && master < |comps| && slave < |comps| && n != master && slave != master && slave != n
    requires comps[slave].ref > 0
    ensures |r| == |comps|
  {
    Handed(comps, n, master, shared)[slave := comps[slave].(ref := comps[slave].ref - 1)]
  }

  lemma HandedAt(comps: seq<Composite>, n: Cid, master: Cid, slave: Cid, shared: Table, d: Cid)
    requires n < |comps| && master < |comps| && slave < |comps|
    requires n != master && slave != master && slave != n && d < |comps|
    requires comps[slave].ref > 0
    ensures HandedOver(comps, n, master, slave, shared)[d] ==
              (if d == slave then comps[d].(ref := comps[d].ref - 1)
               else if d == master then comps[d].(ref := comps[d].ref + 1)
               else if d == n then comps[d].(master := Some(master), pgTbl := shared)
               else comps[d])
  {
  }

  /** The slave itself uses the master's table. */
  lemma SubordinateFirstRound(s: State, slave: Cid, master: Cid)
    requires CanSubordinate(s, slave, master)
    ensures SubordinateFirst(s, slave, master, 1) == s.(comps := Handed(s.comps, slave, master, s.comps[master].pgTbl))
  {
    var list := [slave] + s.comps[slave].subs;
    assert list[..1] == [slave];
    assert SubordinateFirst(s, slave, master, 1).comps == Handed(s.comps, slave, master, s.comps[master].pgTbl);
  }

  /** A subordinate of the slave changes masters; the reference it drops is never the slave's last. */
  lemma SubordinateRound(s: State, slave: Cid, master: Cid, i: nat)
    requires CanSubordinate(s, slave, master) && TreeOk(s) && 0 < i < 1 + |s.comps[slave].subs|
    requires s.comps[slave].ref > |s.comps[slave].subs|
    ensures var n := ([slave] + s.comps[slave].subs)[i];
            var r := SubordinateFirst(s, slave, master, i);
            && n < |s.comps| && n != master && n != slave && |r.comps| == |s.comps|
            && r.comps[n].master == Some(slave)
            && r.comps[slave].ref > 1 && r.comps[slave].master == Some(master) && r.comps[master].master.None?
            && SubordinateFirst(s, slave, master, i + 1)
               == r.(comps := HandedOver(r.comps, n, master, slave, s.comps[master].pgTbl))
  {
    SubordinateNext(s, slave, master, i);
    hide TreeOk;
    hide SubordinateFirst;
    hide HandedOver;
    SubordinateRoundFacts(s, slave, master, i);
    var n := ([slave] + s.comps[slave].subs)[i];
    var r := SubordinateFirst(s, slave, master, i);
    var q := SubordinateFirst(s, slave, master, i + 1);
    var moved := HandedOver(r.comps, n, master, slave, s.comps[master].pgTbl);
    forall d: nat | d < |s.comps|
      ensures moved[d] == q.comps[d]
    {
      SubordinateRoundAt(s, slave, master, i, d);
      HandedAt(r.comps, n, master, slave, s.comps[master].pgTbl, d);
    }
    assert moved == q.comps;
  }

  lemma SubordinateRoundFacts(s: State, slave: Cid, master: Cid, i: nat)
    requires CanSubordinate(s, slave, master) && 0 < i < 1 + |s.comps[slave].subs|
    requires s.comps[slave].ref > |s.comps[slave].subs|
    requires var list := [slave] + s.comps[slave].subs;
             && list[i] < |s.comps| && list[i] != master && list[i] !in list[..i] && master !in list && list[i] != slave
             && slave in list[..i] && s.comps[list[i]].master == Some(slave)
    ensures var n := ([slave] + s.comps[slave].subs)[i];
            var r, q := SubordinateFirst(s, slave, master, i), SubordinateFirst(s, slave, master, i + 1);
            && |r.comps| == |s.comps| == |q.comps| && q == r.(comps := q.comps) && r.comps[n].master == Some(slave)
            && r.comps[slave].ref > 1 && r.comps[slave].master == Some(master) && r.comps[master].master.None?
  {
  }

  lemma SubordinateRoundAt(s: State, slave: Cid, master: Cid, i: nat, d: Cid)
    requires slave < |s.comps| && master < |s.comps| && slave != master
    requires d < |s.comps| && 0 < i < 1 + |s.comps[slave].subs|
    requires var list := [slave] + s.comps[slave].subs;
             && list[i] < |s.comps| && list[i] != master && list[i] != slave && slave in list[..i] && master !in list
             && list[..i + 1] == list[..i] + [list[i]]
    requires s.comps[slave].ref > |s.comps[slave].subs|
    ensures var n := ([slave] + s.comps[slave].subs)[i];
            var r := SubordinateFirst(s, slave, master, i);
            SubordinateFirst(s, slave, master, i + 1).comps[d] ==
              (if d == slave then r.comps[d].(ref := r.comps[d].ref - 1)
               else if d == master then r.comps[d].(ref := r.comps[d].ref + 1)
               else if d == n then r.comps[d].(master := Some(master), pgTbl := s.comps[master].pgTbl)
               else r.comps[d])
  {
    var list := [slave] + s.comps[slave].subs;
    assert d in list[..i + 1] <==> d in list[..i] || d == list[i];
  }

  lemma SubordinateLast(s: State, slave: Cid, master: Cid)
    requires CanSubordinate(s, slave, master)
    ensures slave < |s.comps| && master < |s.comps| && slave != master
    ensures var list := [slave] + s.comps[slave].subs;
            var r := SubordinateFirst(s, slave, master, |list|);
            && |r.comps| == |s.comps| && r.comps[master].subs == s.comps[master].subs
            && Subordinated(s, slave, master)
               == r.(comps := r.comps[slave := r.comps[slave].(subs := [])]
                                     [master := r.comps[master].(subs := s.comps[master].subs + list)])
  {
  }

  lemma SameTree(s: State, r: State)
    requires TreeOk(s) && r.comps == s.comps
    ensures TreeOk(r)
  {
    forall d: nat | d < |r.comps|
      ensures ListsSubordinates(r, d)
    {
      assert ListsSubordinates(s, d);
    }
  }

  lemma OnlySlaveUnmastered(s: State, r: State, slave: Cid)
    requires Mastered(s) && slave < |s.comps| && r == MarkedSubordinate(s, slave)
    ensures MasteredBut(r, slave)
  {
  }

  lemma MaySubordinate(s: State, r: State, master: Cid, slave: Cid, view: map<Table, set<Spd>>)
    requires Within(s, multiset{}, {}, view) && master < |s.comps| && slave < |s.comps| && master != slave
    requires Active(s.comps[master]) && Active(s.comps[slave]) && s.comps[slave].members == []
    requires r == MarkedSubordinate(s, slave)
    ensures CanSubordinate(r, slave, master)
  {
  }

  /** A marked composite with a release due has a reference for each of its subordinates and one more. */
  lemma EnoughReferences(s: State, slave: Cid)
    requires RefOk(s, multiset{slave}) && slave < |s.comps|
    ensures s.comps[slave].ref > |s.comps[slave].subs|
  {
  }

  lemma SubordinatedPool(s: State, slave: Cid, master: Cid, pool: seq<Table>)
    requires slave < |s.comps| && master < |s.comps| && slave != master
    ensures Subordinated(s.(pool := pool), slave, master) == Subordinated(s, slave, master).(pool := pool)
  {
  }

  lemma SlaveIsMastered(s: State, r: State, slave: Cid, master: Cid)
    requires MasteredBut(s, slave) && CanSubordinate(s, slave, master) && |r.comps| == |s.comps|
    requires forall d: nat :: d < |s.comps| ==> r.comps[d] == AfterSubordination(s, slave, master, d)
    ensures Mastered(r)
  {
  }

  lemma TablesOfActive(s: State, c: Cid, d: Cid)
    requires Within(s, multiset{}, {}, s.pt) && c < |s.comps|
    requires d < |s.comps| && Active(s.comps[c]) && Active(s.comps[d])
    ensures s.comps[c].pgTbl in s.pt && s.comps[d].pgTbl in s.pt
  {
    assert MapsMembers(s, c, {}) && MapsMembers(s, d, {});
  }

  /** What a move needs, and what it leaves alone. */
  lemma MoveFacts(s: State, x: Spd, dest: Cid, unmap: bool, stale: set<Cid>, extra: multiset<Cid>,
                  view: map<Table, set<Spd>>)
    requires Within(s, extra, stale, view) && CanMove(s, x, dest) && dest !in stale
    ensures s.comps[s.current[x]].pgTbl != s.comps[dest].pgTbl
    ensures x !in s.pt[s.comps[dest].pgTbl] && x in s.pt[s.comps[s.current[x]].pgTbl]
    ensures var r := Moved(s, x, dest, unmap);
            && |r.comps| == |s.comps| && r.stacks == s.stacks
            && (Mastered(s) ==> Mastered(r))
            && forall d: nat :: d < |s.comps| ==> r.comps[d] == s.comps[d].(members := r.comps[d].members)
  {
    hide Moved;
    hide Mastered;
    MoveIsPossible(s, x, dest, stale);
    ActiveOwns(s);
    MoveShape(s, x, dest, unmap);
  }

  lemma MoveShape(s: State, x: Spd, dest: Cid, unmap: bool)
    requires CanMove(s, x, dest)
    ensures var r := Moved(s, x, dest, unmap);
            && |r.comps| == |s.comps| && r.stacks == s.stacks
            && (Mastered(s) ==> Mastered(r))
            && forall d: nat :: d < |s.comps| ==> r.comps[d] == s.comps[d].(members := r.comps[d].members)
  {
    hide Without;
  }

  /** A move that leaves the old mapping only adds to tables. */
  lemma MoveAdds(s: State, x: Spd, dest: Cid)
    requires CanMove(s, x, dest)
    ensures var r := Moved(s, x, dest, false);
            && r.pt.Keys == s.pt.Keys && (forall p :: p in s.pt ==> s.pt[p] <= r.pt[p])
            && r.current == s.current[x := dest]
            && r.comps[s.current[x]].members == Without(s.comps[s.current[x]].members, x)
  {
  }

  lemma FirstMember(s: State, c: Cid, stale: set<Cid>, view: map<Table, set<Spd>>)
    requires Within(s, multiset{}, stale, view) && c < |s.comps| && s.comps[c].members != []
    ensures s.comps[c].members[0] in s.current && s.current[s.comps[c].members[0]] == c
    ensures |Without(s.comps[c].members, s.comps[c].members[0])| < |s.comps[c].members|
  {
    assert ListsMembers(s, c);
    assert s.comps[c].members[0] in s.comps[c].members;
    WithoutElems(s.comps[c].members, s.comps[c].members[0]);
  }

  lemma NobodyIn(s: State, c: Cid, stale: set<Cid>, view: map<Table, set<Spd>>)
    requires Within(s, multiset{}, stale, view) && c < |s.comps| && s.comps[c].members == []
    ensures forall y :: y in s.current ==> s.current[y] != c
  {
    assert ListsMembers(s, c);
    forall y | y in s.current
      ensures s.current[y] != c
    {
      assert y !in s.comps[c].members;
    }
  }

  lemma AllocFacts(s: State, page: Option<Table>)
    requires Within(s, multiset{}, {}, s.pt) && CanAlloc(s, page) && (page.Some? ==> page.value !in s.pt)
    ensures s.freelist[0] < |s.comps| && s.comps[s.freelist[0]].free
    ensures var r := Allocated(s, page);
            && r.pt.Keys <= s.pt.Keys + (if page.Some? then {page.value} else {})
            && (Mastered(s) ==> Mastered(r))
  {
    AllocKeeps(s, page, {});
    FirstIn(s.pool);
  }

  lemma CurrentIsActive(s: State, x: Spd)
    requires Within(s, multiset{}, {}, s.pt) && x in s.current
    ensures s.current[x] < |s.comps| && Active(s.comps[s.current[x]])
  {
  }

  lemma ActiveIsOwner(s: State, c: Cid, view: map<Table, set<Spd>>)
    requires Within(s, multiset{}, {}, view) && c < |s.comps| && Active(s.comps[c])
    ensures Owner(s.comps[c])
  {
  }

  /** x is now alone; the other spds share a composite exactly when they did before. */
  ghost predicate SplitOff(was: map<Spd, Cid>, now: map<Spd, Cid>, x: Spd) {
    && now.Keys == was.Keys && x in now
    && (forall y :: y in now && y != x ==> now[y] != now[x])
    && (forall y, z :: y in now && z in now && y != x && z != x ==> (now[y] == now[z] <==> was[y] == was[z]))
  }

  lemma StackMastered(s: State, r: State)
    requires Mastered(s) && |r.comps| == |s.comps|
    requires forall d: nat :: d < |s.comps| ==>
      r.comps[d].subordinate == s.comps[d].subordinate && r.comps[d].master == s.comps[d].master
    ensures Mastered(r)
  {
  }

  lemma EmptyStack(s: State, r: State)
    requires Within(s, multiset{}, {}, s.pt) && Mastered(s) && r == s.(stacks := s.stacks + [[]])
    ensures Within(r, multiset{}, {}, r.pt) && Mastered(r)
  {
    SameTables(s, r, {});
    assert r.stacks[..|r.stacks| - 1] == s.stacks;
    forall t, i | 0 <= t < |r.stacks| && 0 <= i < |r.stacks[t]|
      ensures FrameInView(r, r.stacks[t][i], r.pt)
    {
      assert FrameInView(s, s.stacks[t][i], s.pt);
    }
  }

  lemma InvWithin(s: State)
    requires Inv(s)
    ensures Within(s, multiset{}, {}, s.pt)
  {
  }

  lemma StacksNonEmpty(s: State)
    requires Inv(s)
    ensures forall t: nat :: t < |s.stacks| ==> s.stacks[t] != []
  {
  }

  /** The system calls that a run is made of.  Pages are what the host's allocator hands out. */
  datatype Op =
    | Activate(x: Spd, page: Option<Table>)
    | CreateThread(x: Spd)
    | Invoke(t: nat, owner: Spd, dest: Spd)
    | Return(t: nat, sched: Spd)
    | RemoveFrame(t: nat, nth: int)
    | Update(t: nat, x: Spd)
    | Merge(x: Spd, y: Spd)
    | Split(x: Spd, y: Spd, page1: Option<Table>, page2: Option<Table>)

  /** The frame's composite is live, and its page table is in use and maps the frame's spd. */
  ghost predicate Served(s: State, f: Frame) {
    && f.comp < |s.comps| && !s.comps[f.comp].free
    && s.comps[f.comp].pgTbl in s.pt && f.spd in s.pt[s.comps[f.comp].pgTbl]
    && s.comps[f.comp].pgTbl !in s.pool
  }

  /** The spd a frame was pushed for stays mapped in the page table of the frame's composite. */
  lemma FrameStaysMapped(s: State, t: nat, i: nat)
    requires Inv(s) && t < |s.stacks| && i < |s.stacks[t]|
    ensures Served(s, s.stacks[t][i])
  {
    assert FrameInView(s, s.stacks[t][i], s.pt);
  }

  /** The composites that share c's page table because they were made subordinate to it. */
  ghost function SubordinatesOf(s: State, c: Cid): set<Cid> {
    set x: nat | x < |s.comps| && s.comps[x].master == Some(c)
  }

  /** The reference count is the active reference plus the frames plus the subordinates. */
  ghost predicate Counted(s: State, c: Cid)
    requires c < |s.comps|
  {
    && s.comps[c].ref == (if Active(s.comps[c]) then 1 else 0) + Frames(s.stacks, c) + |SubordinatesOf(s, c)|
    && (s.comps[c].free <==> s.comps[c].ref == 0)
  }

  lemma ReferenceCount(s: State, c: Cid)
    requires Inv(s) && c < |s.comps|
    ensures Counted(s, c)
  {
    assert ListsSubordinates(s, c);
    DistinctCount(s.comps[c].subs);
    assert Elems(s.comps[c].subs) == SubordinatesOf(s, c);
  }

  /** The composite whose page table c uses. */
  ghost function Provider(s: State, c: Cid): Cid
    requires c < |s.comps|
  {
    if s.comps[c].master.Some? then s.comps[c].master.value else c
  }

  /** Subordination is flat, and live composites share a page table exactly when they have the same
      provider. */
  lemma TablesAreShared(s: State, c: Cid, d: Cid)
    requires Inv(s) && c < |s.comps| && d < |s.comps| && !s.comps[c].free && !s.comps[d].free
    ensures Provider(s, c) < |s.comps| && s.comps[Provider(s, c)].master.None? && !s.comps[Provider(s, c)].free
    ensures s.comps[c].pgTbl == s.comps[d].pgTbl <==> Provider(s, c) == Provider(s, d)
  {
  }

  /** A live composite runs on page table p. */
  ghost predicate InUse(s: State, p: Table) {
    exists c: nat :: c < |s.comps| && !s.comps[c].free && s.comps[c].pgTbl == p
  }

  /** A page table is given back exactly when it goes out of use, and once: the pool holds, without repetition,
      exactly the tables that no live composite runs on. */
  lemma PoolIsRest(s: State)
    requires Inv(s)
    ensures Distinct(s.pool) && forall p :: p in s.pt ==> (p in s.pool <==> !InUse(s, p))
    ensures forall p :: p in s.pool || InUse(s, p) ==> p in s.pt
  {
    forall p | p in s.pool
      ensures !InUse(s, p)
    {
      forall c: nat | c < |s.comps| && !s.comps[c].free
        ensures s.comps[c].pgTbl != p
      {
        TablesAreShared(s, c, c);
      }
    }
    forall p | p in s.pt && p !in s.pool
      ensures InUse(s, p)
    {
      assert Owned(s, p);
    }
  }

  /** What the invariant promises about every reachable state. */
  ghost predicate Sound(s: State) {
    && (forall t, i :: 0 <= t < |s.stacks| && 0 <= i < |s.stacks[t]| ==> Served(s, s.stacks[t][i]))
    && (forall c: nat :: c < |s.comps| ==> Counted(s, c))
    && (forall c: nat, d: nat :: c < |s.comps| && d < |s.comps| && !s.comps[c].free && !s.comps[d].free ==>
          (s.comps[c].pgTbl == s.comps[d].pgTbl <==> Provider(s, c) == Provider(s, d)))
    && Distinct(s.pool) && (forall p :: p in s.pt ==> (p in s.pool <==> !InUse(s, p)))
    && (forall c: nat :: c < |s.comps| ==> (s.comps[c].free <==> Unused(s, c)))
  }

  /** No spd is placed in composite c, and nothing refers to it. */
  ghost predicate Unused(s: State, c: Cid) {
    Unreferenced(s, c) && forall x :: x in s.current ==> s.current[x] != c
  }

  /** No descriptor is lost: one is free exactly if it is not used. */
  lemma FreeIsUnused(s: State, c: Cid)
    requires Inv(s) && c < |s.comps|
    ensures s.comps[c].free <==> Unused(s, c)
  {
    NoFrames(s.stacks, c);
    assert ListsSubordinates(s, c) && ListsMembers(s, c);
    if s.comps[c].subs != [] {
      assert s.comps[c].subs[0] in s.comps[c].subs;
    }
  }

  lemma InvIsSound(s: State)
    requires Inv(s)
    ensures Sound(s)
  {
    hide Inv;
    hide Served;
    hide Counted;
    hide InUse;
    hide Unused;
    forall c: nat | c < |s.comps|
      ensures s.comps[c].free <==> Unused(s, c)
    {
      FreeIsUnused(s, c);
    }
    forall t, i | 0 <= t < |s.stacks| && 0 <= i < |s.stacks[t]|
      ensures Served(s, s.stacks[t][i])
    {
      FrameStaysMapped(s, t, i);
    }
    forall c: nat | c < |s.comps|
      ensures Counted(s, c)
    {
      ReferenceCount(s, c);
    }
    forall c: nat, d: nat | c < |s.comps| && d < |s.comps| && !s.comps[c].free && !s.comps[d].free
      ensures s.comps[c].pgTbl == s.comps[d].pgTbl <==> Provider(s, c) == Provider(s, d)
    {
      TablesAreShared(s, c, d);
    }
    PoolIsRest(s);
  }

  // ----- what the tests of the system calls mean

  /** The composite of the frame that thread t runs in. */
  ghost function TopOf(s: State, t: nat): Cid
    requires t < |s.stacks| && s.stacks[t] != []
  {
    s.stacks[t][|s.stacks[t]| - 1].comp
  }

  /** The spd is mapped in the page table that composite c runs on. */
  ghost predicate MappedIn(s: State, c: Cid, x: Spd) {
    x in s.current && Served(s, Frame(c, x))
  }

  /** No active composite runs on the page table of composite c. */
  ghost predicate OutOfDate(s: State, c: Cid) {
    c < |s.comps| && forall d: nat :: d < |s.comps| && Active(s.comps[d]) ==> s.comps[d].pgTbl != s.comps[c].pgTbl
  }

  lemma TopIsLive(s: State, t: nat)
    requires Inv(s) && t < |s.stacks| && s.stacks[t] != []
    ensures TopOf(s, t) < |s.comps| && !s.comps[TopOf(s, t)].free
    ensures s.comps[TopOf(s, t)].pgTbl in s.pt && s.comps[TopOf(s, t)].pgTbl !in s.pool
  {
    FrameStaysMapped(s, t, |s.stacks[t]| - 1);
  }

  lemma TopIsMapped(s: State, t: nat)
    requires Inv(s) && t < |s.stacks| && s.stacks[t] != []
    ensures MappedIn(s, TopOf(s, t), s.stacks[t][|s.stacks[t]| - 1].spd)
  {
    FrameStaysMapped(s, t, |s.stacks[t]| - 1);
    assert FrameInView(s, s.stacks[t][|s.stacks[t]| - 1], s.pt);
  }

  /** An spd is found in a live composite, by its own record or by the page table, exactly if it is mapped there. */
  lemma FoundIsMapped(s: State, c: Cid, x: Spd)
    requires Inv(s) && c < |s.comps| && !s.comps[c].free && s.comps[c].pgTbl in s.pt && s.comps[c].pgTbl !in s.pool
    ensures MappedIn(s, c, x)
            <==> x in s.current && (s.current[x] == c || x in s.pt[s.comps[c].pgTbl])
  {
    if x in s.current && s.current[x] == c {
      assert ListsMembers(s, c) && MapsMembers(s, c, {});
      assert x in Elems(s.comps[c].members);
    }
  }

  /** A composite, or its master, is deprecated exactly if no active composite runs on its page table. */
  lemma DeprecatedIsOutOfDate(s: State, c: Cid)
    requires Inv(s) && c < |s.comps| && !s.comps[c].free
    ensures OutOfDate(s, c)
            <==> s.comps[c].deprecated || (s.comps[c].subordinate && s.comps[c].master.Some?
                                           && s.comps[c].master.value < |s.comps|
                                           && s.comps[s.comps[c].master.value].deprecated)
  {
    ActiveOwns(s);
    if s.comps[c].master.Some? {
      assert Owner(s.comps[s.comps[c].master.value]);
    }
  }

  /** The spds of a composite. */
  ghost function SpdsOf(current: map<Spd, Cid>, c: Cid): set<Spd> {
    set x | x in current && current[x] == c
  }

  lemma MembersAreSpds(s: State, c: Cid)
    requires Inv(s) && c < |s.comps|
    ensures |s.comps[c].members| == |SpdsOf(s.current, c)|
  {
    assert ListsMembers(s, c);
    DistinctCount(s.comps[c].members);
    assert Elems(s.comps[c].members) == SpdsOf(s.current, c);
  }

  /** Composite c1 of two is emptied by a merge: nothing but its own activity refers to it, unless that is so of the
      other too; otherwise it is the one with fewer spds, and of two with as many it is c2. */
  ghost predicate IsEmptied(s: State, c1: Cid, c2: Cid)
    requires c1 < |s.comps| && c2 < |s.comps|
  {
    || (Unreferenced(s, c1) && !Unreferenced(s, c2))
    || |SpdsOf(s.current, c1)| < |SpdsOf(s.current, c2)|
  }

  /** No frame runs in composite c, and none is subordinate to it. */
  ghost predicate Unreferenced(s: State, c: Cid) {
    && (forall t, i :: 0 <= t < |s.stacks| && 0 <= i < |s.stacks[t]| ==> s.stacks[t][i].comp != c)
    && (forall d: nat :: d < |s.comps| ==> s.comps[d].master != Some(c))
  }

  lemma MergePopulated(s: State, r: State, other: Cid, dest: Cid)
    requires Populated(s) && NoneActivated(s.comps, r.comps) && other < |r.comps| && !Active(r.comps[other])
    requires r.current == map x | x in s.current :: if s.current[x] == other then dest else s.current[x]
    ensures Populated(r)
  {
    forall c: nat | c < |r.comps| && Active(r.comps[c])
      ensures exists x :: x in r.current && r.current[x] == c
    {
      var x :| x in s.current && s.current[x] == c;
      assert r.current[x] == c;
    }
  }

  lemma SplitPopulated(s: State, r: State, x: Spd, c: Cid, first: Cid, rest: Cid)
    requires Populated(s) && x in s.current && s.current[x] == c && |SpdsOf(s.current, c)| != 1
    requires r.current == map y | y in s.current ::
      if y == x then first else if s.current[y] == c then rest else s.current[y]
    requires forall d: nat :: d < |r.comps| && Active(r.comps[d]) ==>
      d == first || d == rest || (d != c && d < |s.comps| && Active(s.comps[d]))
    ensures Populated(r)
  {
    assert x in SpdsOf(s.current, c);
    var others := SpdsOf(s.current, c) - {x};
    assert |others| == |SpdsOf(s.current, c)| - 1;
    var z :| z in others;
    assert r.current[x] == first && r.current[z] == rest;
    forall d: nat | d < |r.comps| && Active(r.comps[d]) && d != first && d != rest
      ensures exists y :: y in r.current && r.current[y] == d
    {
      var y :| y in s.current && s.current[y] == d;
      assert r.current[y] == d;
    }
  }

  lemma JoinPopulated(s: State, r: State, x: Spd, c: Cid)
    requires Populated(s) && x !in s.current && r.current == s.current[x := c]
    requires forall d: nat :: d < |r.comps| && Active(r.comps[d]) && d != c ==> d < |s.comps| && Active(s.comps[d])
    ensures Populated(r)
  {
    assert r.current[x] == c;
    forall d: nat | d < |r.comps| && Active(r.comps[d]) && d != c
      ensures exists y :: y in r.current && r.current[y] == d
    {
      var y :| y in s.current && s.current[y] == d;
      assert r.current[y] == d;
    }
  }

  lemma {:induction false} NoneInStack(st: seq<Frame>, c: Cid)
    ensures InStack(st, c) == 0 <==> forall i :: 0 <= i < |st| ==> st[i].comp != c
  {
    if st != [] {
      NoneInStack(st[..|st| - 1], c);
      assert st == st[..|st| - 1] + [st[|st| - 1]];
    }
  }

  lemma {:induction false} NoFrames(stacks: seq<seq<Frame>>, c: Cid)
    ensures Frames(stacks, c) == 0
            <==> forall t, i :: 0 <= t < |stacks| && 0 <= i < |stacks[t]| ==> stacks[t][i].comp != c
  {
    if stacks != [] {
      var n := |stacks| - 1;
      NoFrames(stacks[..n], c);
      NoneInStack(stacks[n], c);
      hide InStack;
      assert forall t :: 0 <= t < n ==> stacks[..n][t] == stacks[t];
    }
  }

  lemma OneReference(s: State, c: Cid)
    requires Inv(s) && c < |s.comps| && Active(s.comps[c])
    ensures s.comps[c].ref == 1 <==> Unreferenced(s, c)
  {
    NoFrames(s.stacks, c);
    assert ListsSubordinates(s, c);
    if s.comps[c].subs != [] {
      assert s.comps[c].subs[0] in s.comps[c].subs;
    }
  }

  /** What a system call makes of the placement of the spds and of the stacks.  Which of the free descriptors are
      used is left open; a call that is refused changes nothing. */
  ghost predicate Stepped(s: State, op: Op, r: State) {
    match op
    case Activate(x, page) =>
      if x in s.current || (page.Some? && page.value in s.pt) || !CanAlloc(s, page) then r == s
      else && x in r.current && r.current == s.current[x := r.current[x]] && r.stacks == s.stacks
           && forall y :: y in s.current ==> s.current[y] != r.current[x]
    case CreateThread(x) =>
      if x !in s.current then r == s
      else r.current == s.current && r.stacks == s.stacks + [[Frame(s.current[x], x)]]
    case Invoke(t, owner, dest) =>
      if t < |s.stacks| && dest in s.current && s.stacks[t] != [] && MappedIn(s, TopOf(s, t), owner)
      then r.current == s.current && r.stacks == s.stacks[t := s.stacks[t] + [Frame(s.current[dest], dest)]]
      else r == s
    case Return(t, sched) =>
      if t >= |s.stacks| || s.stacks[t] == [] || sched !in s.current then r == s
      else
        var st := s.stacks[t];
        && r.current == s.current
        && r.stacks == s.stacks[t := if |st| > 1 then st[..|st| - 1] else [Frame(s.current[sched], sched)]]
    case RemoveFrame(t, nth) =>
      if t < |s.stacks| && 0 <= nth < |s.stacks[t]| - 1
      then
        var st, i := s.stacks[t], |s.stacks[t]| - 1 - nth;
        r.current == s.current && r.stacks == s.stacks[t := st[..i] + st[i + 1..]]
      else r == s
    case Update(t, x) =>
      if && t < |s.stacks| && s.stacks[t] != [] && x in s.current && s.stacks[t][|s.stacks[t]| - 1].spd == x
         && OutOfDate(s, TopOf(s, t))
      then
        var st := s.stacks[t];
        r.current == s.current && r.stacks == s.stacks[t := st[|st| - 1 := Frame(s.current[x], x)]]
      else r == s
    case Merge(x, y) =>
      if x !in s.current || y !in s.current || s.current[x] == s.current[y] then r == s
      else
        var c1, c2 := s.current[x], s.current[y];
        && c1 < |s.comps| && c2 < |s.comps| && r.stacks == s.stacks
        && var dest := if IsEmptied(s, c1, c2) then c2 else c1;
           r.current == map z | z in s.current :: if s.current[z] in {c1, c2} then dest else s.current[z]
    case Split(x, y, page1, page2) =>
      r.stacks == s.stacks
      && if x in s.current && y in s.current && s.current[x] == s.current[y] < |s.comps|
            && CanSplit(s, s.current[y], page1, page2) && FreshPages(s, page1, page2)
         then SplitOff(s.current, r.current, y) else r.current == s.current
  }

  /** The composite has another member, and there are descriptors and page tables for the parts. */
  ghost predicate CanSplit(s: State, c: Cid, page1: Option<Table>, page2: Option<Table>) {
    && |SpdsOf(s.current, c)| != 1 && CanAlloc(s, page1)
    && (Unreferenced(s, c) || (|s.freelist| > 1 && (|s.pool| > 1 || page2.Some?)))
  }

  predicate FreshPages(s: State, page1: Option<Table>, page2: Option<Table>) {
    && (page1.Some? ==> page1.value !in s.pt && page1 != page2) && (page2.Some? ==> page2.value !in s.pt)
  }

  /** The states are those that the system calls lead through, and all of them are sound. */
  ghost predicate IsRun(ss: seq<State>, ops: seq<Op>) {
    && |ss| == |ops| + 1 && (forall i :: 0 <= i < |ss| ==> Inv(ss[i]) && Sound(ss[i]))
    && forall i :: 0 <= i < |ops| ==> Stepped(ss[i], ops[i], ss[i + 1])
  }

  lemma LongerRun(ss: seq<State>, ops: seq<Op>, i: nat, r: State)
    requires i < |ops| && |ss| == i + 1 && IsRun(ss, ops[..i]) && Inv(r) && Sound(r) && Stepped(ss[i], ops[i], r)
    ensures IsRun(ss + [r], ops[..i + 1])
  {
    hide Inv;
    hide Sound;
    hide Stepped;
    forall k | 0 <= k < i + 1
      ensures Stepped((ss + [r])[k], ops[..i + 1][k], (ss + [r])[k + 1])
    {
      assert k < i ==> ops[..i][k] == ops[k] && Stepped(ss[k], ops[..i][k], ss[k + 1]);
    }
  }

  // ----- looking a descriptor up

  /** The index that spd_alloc_mpd_desc returns. */
  function AllocIndex(s: State, page: Option<Table>): int {
    if CanAlloc(s, page) then s.freelist[0] else -1
  }

  /** spd_mpd_by_idx: the descriptor at an index of the array of n, or nothing.  Negative indices are not tested. */
  function ByIndex(n: nat, idx: int): Option<int> {
    if idx >= n then None else Some(idx)
  }

  /** spd_alloc_mpd never yields nothing, and yields a descriptor of the array, a free one, exactly if the
      allocation is possible. */
  lemma AllocatesReal(s: State, page: Option<Table>)
    requires Inv(s)
    ensures var r := ByIndex(|s.comps|, AllocIndex(s, page));
            && r.Some? && (CanAlloc(s, page) <==> 0 <= r.value)
            && (CanAlloc(s, page) ==> r.value < |s.comps| && s.comps[r.value].free)
  {
    FirstIn(s.freelist);
  }

  /** The kernel with n descriptors before anything has been activated. */
  function Unstarted(n: nat): State {
    State(seq(n, i => Composite(0, true, false, false, 0, [], None, [])), seq(n, i => i), map[], map[], [], [])
  }

  lemma UnstartedOk(n: nat)
    ensures Inv(Unstarted(n))
  {
    var s := Unstarted(n);
    forall c: nat
      ensures c in s.freelist <==> c < n
    {
      if c < n {
        assert s.freelist[c] == c;
      }
    }
  }

  /** Where an activation goes wrong: no page is left, and the lookup leads before the array. */
  lemma StrayLookup(n: nat)
    ensures Inv(Unstarted(n)) && ByIndex(n, AllocIndex(Unstarted(n), None)) == Some(-1) && ByIndex(n, n).None?
  {
    UnstartedOk(n);
  }

  class Kernel {
    var comps: seq<Composite>
    var freelist: seq<Cid>
    var current: map<Spd, Cid>
    var pt: map<Table, set<Spd>>
    var pool: seq<Table>
    var stacks: seq<seq<Frame>>

    function View(): State
      reads this
    {
      State(comps, freelist, current, pt, pool, stacks)
    }

    /** spd_init_mpd_descriptors: all descriptors are free. */
    constructor (descriptors: nat)
      ensures Inv(View()) && View() == Unstarted(descriptors)
    {
      hide Inv;
      comps := seq(descriptors, i => Composite(0, true, false, false, 0, [], None, []));
      freelist := seq(descriptors, i => i);
      current, pt, pool, stacks := map[], map[], [], [];
      new;
      UnstartedOk(descriptors);
    }

    /** spd_mpd_release. */
    method Release(c: Cid)
      requires c < |comps|
      requires comps[c].master.Some? ==>
        var m := comps[c].master.value; m < |comps| && m != c && comps[m].master.None?
      modifies this
      ensures View() == Released(old(View()), c)
      decreases if comps[c].master.Some? then 1 else 0
    {
      comps := comps[c := comps[c].(ref := comps[c].ref - 1)];
      if comps[c].ref == 0 {
        freelist := [c] + freelist;
        var k := comps[c];
        comps := comps[c := Freed(k)];
        if k.master.Some? {
          var m := k.master.value;
          comps := comps[m := comps[m].(subs := Without(comps[m].subs, c))];
          Release(m);
        } else {
          pool := [k.pgTbl] + pool;
        }
      }
    }

    /** spd_mpd_release inside a system call, of a reference that is due. */
    method GiveBack(c: Cid)
      requires Within(View(), multiset{c}, {}, pt) && c < |comps|
      requires Mastered(View()) || (MasteredBut(View(), c) && comps[c].ref == 1)
      modifies this
      ensures Within(View(), multiset{}, {}, pt) && Mastered(View())
      ensures current == old(current) && pt == old(pt) && stacks == old(stacks)
      ensures NoneActivated(old(comps), comps) && c < |comps| && (!Active(old(comps)[c]) ==> !Active(comps[c]))
    {
      hide Within;
      hide Mastered;
      hide MasteredBut;
      hide NoneActivated;
      ghost var s := View();
      ReleaseKeeps(s, c, multiset{c}, {}, pt);
      assert multiset{c} - multiset{c} == multiset{};
      ReleaseActivatesNone(s, c);
      Release(c);
      Parts(View(), multiset{}, {}, pt);
      ReleaseMastered(s, c);
    }

    /** spd_alloc_mpd_desc: a descriptor and a page table, or nothing. */
    method Alloc(page: Option<Table>) returns (c: Option<Cid>)
      requires CanAlloc(View(), page) ==> freelist[0] < |comps|
      modifies this
      ensures c.Some? <==> old(CanAlloc(View(), page))
      ensures c.Some? ==> c.value == old(freelist)[0] && View() == old(Allocated(View(), page))
      ensures c.None? ==> View() == old(View())
    {
      if freelist == [] {
        return None;
      }
      var table := page;
      if pool != [] {
        table := Some(pool[0]);
      }
      if table.None? {
        return None;
      }
      if pool != [] {
        pool := pool[1..];
      }
      c := Some(freelist[0]);
      freelist := freelist[1..];
      pt := pt[table.value := {}];
      comps := comps[c.value := Composite(1, false, false, false, table.value, [], None, [])];
    }

    /** spd_composite_move_member: remove, then add; none of its assertions fails. */
    method MoveMember(x: Spd, dest: Cid, unmap: bool)
      requires CanMove(View(), x, dest) && comps[current[x]].pgTbl != comps[dest].pgTbl
      requires x !in pt[comps[dest].pgTbl] && x in pt[comps[current[x]].pgTbl]
      modifies this
      ensures View() == Moved(old(View()), x, dest, unmap)
    {
      var c := current[x];
      comps := comps[c := comps[c].(members := Without(comps[c].members, x))];
      if unmap {
        pt := pt[comps[c].pgTbl := pt[comps[c].pgTbl] - {x}];
      }
      assert x !in pt[comps[dest].pgTbl];
      pt := pt[comps[dest].pgTbl := pt[comps[dest].pgTbl] + {x}];
      comps := comps[dest := comps[dest].(members := [x] + comps[dest].members)];
      current := current[x := dest];
    }

    /** spd_mpd_subordinate: the slave and its subordinates are handed to the master, one by one. */
    method Subordinate(slave: Cid, master: Cid)
      requires slave < |comps| && master < |comps| && slave != master
      requires CanSubordinate(View(), slave, master) && TreeOk(View())
      requires comps[slave].ref > |comps[slave].subs|
      modifies this
      ensures View() == Subordinated(old(View()), slave, master)
    {
      hide SubordinateFirst;
      hide Subordinated;
      hide TreeOk;
      hide Released;
      ghost var s := View();
      var shared := comps[master].pgTbl;
      var list := [slave] + comps[slave].subs;
      SubordinateNone(s, slave, master);
      SubordinateFirstRound(s, slave, master);
      for i := 0 to |list|
        invariant View() == SubordinateFirst(s, slave, master, i)
      {
        if i > 0 {
          SubordinateRound(s, slave, master, i);
        }
        HandOver(list[i], slave, master, shared);
      }
      SubordinateLast(s, slave, master);
      comps := comps[slave := comps[slave].(subs := [])];
      comps := comps[master := comps[master].(subs := comps[master].subs + list)];
    }

    /** One round of spd_mpd_subordinate. */
    method HandOver(n: Cid, slave: Cid, master: Cid, shared: Table)
      requires n < |comps| && slave < |comps| && master < |comps| && n != master && slave != master
      requires comps[n].master.None? || (comps[n].master == Some(slave) && n != slave)
      requires comps[n].master.Some? ==>
        comps[slave].ref > 1 && comps[slave].master == Some(master) && comps[master].master.None?
      modifies this
      ensures View() == old(View()).(comps :=
                if old(comps[n].master).None? then Handed(old(comps), n, master, shared)
                else HandedOver(old(comps), n, master, slave, shared))
    {
      var oldMaster := comps[n].master;
      comps := comps[n := comps[n].(master := Some(master), pgTbl := shared)];
      comps := comps[master := comps[master].(ref := comps[master].ref + 1)];
      if oldMaster.Some? {
        Release(slave);
      }
    }

    /** spd_mpd_make_subordinate. */
    method MakeSubordinate(master: Cid, slave: Cid, ghost view: map<Table, set<Spd>>)
      requires Within(View(), multiset{}, {}, view) && Mastered(View()) && SharesTable(View(), master, slave, view)
      requires master != slave && Active(comps[master]) && Active(comps[slave]) && comps[slave].members == []
      modifies this
      ensures Within(View(), multiset{}, {}, pt) && Mastered(View())
      ensures current == old(current) && pt == old(pt) && stacks == old(stacks)
      ensures NoneActivated(old(comps), comps) && !Active(comps[slave])
    {
      hide Mastered;
      hide MasteredBut;
      hide Within;
      hide Subordinated;
      ghost var s, was := View(), comps;
      comps := comps[slave := comps[slave].(subordinate := true)];
      assert NoneActivated(was, comps) && !Active(comps[slave]);
      RetireKeeps(s, slave, View(), {}, view);
      assert {} - {slave} == {};
      OnlySlaveUnmastered(s, View(), slave);
      Parts(View(), multiset{slave}, {}, view);
      EnoughReferences(View(), slave);
      MaySubordinate(s, View(), master, slave, view);
      if comps[slave].ref > 1 {
        ShareTable(master, slave, view);
      } else {
        UnusedView(View(), slave, multiset{slave}, {}, view, pt);
      }
      GiveBack(slave);
    }

    method ShareTable(master: Cid, slave: Cid, ghost view: map<Table, set<Spd>>)
      requires Within(View(), multiset{slave}, {}, view) && SharesTable(View(), master, slave, view)
      requires CanSubordinate(View(), slave, master) && MasteredBut(View(), slave) && slave < |comps|
      modifies this
      ensures Within(View(), multiset{slave}, {}, pt) && Mastered(View()) && |comps| == |old(comps)|
      ensures current == old(current) && pt == old(pt) && stacks == old(stacks)
      ensures forall d: nat :: d < |comps| ==> (Active(comps[d]) <==> Active(old(comps)[d]))
    {
      hide Within;
      hide Mastered;
      hide MasteredBut;
      hide Subordinated;
      ghost var s := View();
      Parts(s, multiset{slave}, {}, view);
      EnoughReferences(s, slave);
      pool := [comps[slave].pgTbl] + pool;
      SameTree(s, View());
      SubordinatedPool(s, slave, master, pool);
      Subordinate(slave, master);
      SubordinatedComps(s, slave, master);
      SubordinateKeeps(s, slave, master, multiset{slave}, {}, view, pt, View());
      SlaveIsMastered(s, View(), slave, master);
    }

    /** spd_composite_num_members. */
    function NumMembers(c: Cid): nat
      requires c < |comps|
      reads this`comps
    {
      |comps[c].members|
    }

    /** get_spd_to_subordinate: one that can be freed at once, else the smaller one. */
    function ToSubordinate(c1: Cid, c2: Cid): Cid
      requires c1 < |comps| && c2 < |comps|
      reads this`comps
    {
      if comps[c1].ref == 1 && comps[c2].ref != 1 then c1
      else if NumMembers(c1) < NumMembers(c2) then c1
      else c2
    }

    lemma ToSubordinateIs(c1: Cid, c2: Cid)
      requires Inv(View()) && c1 < |comps| && c2 < |comps| && c1 != c2 && Active(comps[c1]) && Active(comps[c2])
      ensures ToSubordinate(c1, c2) == if IsEmptied(View(), c1, c2) then c1 else c2
    {
      OneReference(View(), c1);
      OneReference(View(), c2);
      MembersAreSpds(View(), c1);
      MembersAreSpds(View(), c2);
      hide Inv;
      hide Unreferenced;
    }

    /** mpd_merge: all members of one composite move to the other, which takes over its frames. */
    method Merge(c1: Cid, c2: Cid) returns (dest: Cid)
      requires Inv(View()) && c1 < |comps| && c2 < |comps| && c1 != c2 && Active(comps[c1]) && Active(comps[c2])
      modifies this
      ensures Inv(View()) && dest == if IsEmptied(old(View()), c1, c2) then c2 else c1
      ensures stacks == old(stacks)
      ensures current == map x | x in old(current) ::
        if old(current)[x] == c1 || old(current)[x] == c2 then dest else old(current)[x]
    {
      hide Within;
      hide Mastered;
      hide Merging;
      hide Moved;
      ToSubordinateIs(c1, c2);
      hide IsEmptied;
      var other := ToSubordinate(c1, c2);
      dest := if other == c1 then c2 else c1;
      ghost var s0 := View();
      MergeStart(s0, other, dest);
      TablesOfActive(s0, other, dest);
      ghost var view := MergeView(s0, other, dest);
      while comps[other].members != []
        invariant Merging(s0, View(), other, dest) && |comps| == |s0.comps| && stacks == s0.stacks
        invariant Within(View(), multiset{}, {}, view) && Mastered(View())
        invariant Active(comps[other]) && Active(comps[dest])
        invariant forall d: nat :: d < |comps| ==> (Active(comps[d]) <==> Active(s0.comps[d]))
        decreases |comps[other].members|
      {
        MergeStep(s0, View(), other, dest, view);
        MoveFacts(View(), comps[other].members[0], dest, true, {}, multiset{}, view);
        MoveMember(comps[other].members[0], dest, true);
      }
      MergeEnd(s0, View(), other, dest, view);
      MakeSubordinate(dest, other, view);
      MergePopulated(s0, View(), other, dest);
    }

    /** mpd_split_composite_populate, with a second new composite: x goes to new1, the others to new2. */
    method Populate(new1: Cid, new2: Cid, x: Spd, c: Cid)
      requires Within(View(), multiset{}, {}, pt) && Mastered(View())
      requires new1 < |comps| && new2 < |comps| && c < |comps| && new1 != new2 && new1 != c && new2 != c
      requires Active(comps[new1]) && Active(comps[new2]) && Active(comps[c]) && x in current && current[x] == c
      modifies this
      ensures Within(View(), multiset{}, {c}, pt) && Mastered(View()) && |comps| == |old(comps)|
      ensures Active(comps[c]) && comps[c].members == [] && stacks == old(stacks)
      ensures forall d: nat :: d < |comps| ==> (Active(comps[d]) <==> Active(old(comps)[d]))
      ensures current == map y | y in old(current) ::
        if y == x then new1 else if old(current)[y] == c then new2 else old(current)[y]
    {
      hide Within;
      hide Mastered;
      hide Moved;
      ghost var s0 := View();
      ghost var view := pt;
      MoveKeeps(s0, x, new1, false, multiset{}, {}, view);
      MoveFacts(s0, x, new1, false, {}, multiset{}, view);
      MoveAdds(s0, x, new1);
      MoveMember(x, new1, false);
      assert {} + {c} == {c};
      while comps[c].members != []
        invariant Within(View(), multiset{}, {c}, view) && Mastered(View())
        invariant |comps| == |s0.comps| && stacks == s0.stacks
        invariant Active(comps[new2]) && Active(comps[c])
        invariant forall d: nat :: d < |comps| ==> (Active(comps[d]) <==> Active(s0.comps[d]))
        invariant view.Keys <= pt.Keys && forall p :: p in view ==> view[p] <= pt[p]
        invariant current.Keys == s0.current.Keys && x in current && current[x] == new1
        invariant forall y :: y in current && y != x ==>
          current[y] == s0.current[y] || (s0.current[y] == c && current[y] == new2)
        decreases |comps[c].members|
      {
        var y := comps[c].members[0];
        FirstMember(View(), c, {c}, view);
        MoveKeeps(View(), y, new2, false, multiset{}, {c}, view);
        MoveFacts(View(), y, new2, false, {c}, multiset{}, view);
        MoveAdds(View(), y, new2);
        assert {c} + {c} == {c};
        MoveMember(y, new2, false);
      }
      WiderView(View(), multiset{}, {c}, view, pt);
      NobodyIn(View(), c, {c}, pt);
    }

    /** spd_alloc_mpd_desc inside a system call. */
    method AllocComposite(page: Option<Table>) returns (c: Option<Cid>)
      requires Within(View(), multiset{}, {}, pt) && Mastered(View()) && (page.Some? ==> page.value !in pt)
      modifies this
      ensures Within(View(), multiset{}, {}, pt) && Mastered(View())
      ensures |comps| == |old(comps)| && current == old(current) && stacks == old(stacks)
      ensures pt.Keys <= old(pt).Keys + (if page.Some? then {page.value} else {})
      ensures c.Some? <==> old(CanAlloc(View(), page))
      ensures c.None? ==> View() == old(View())
      ensures c.Some? ==> c.value == old(freelist)[0] && freelist == old(freelist)[1..]
      ensures c.Some? ==> |pool| == if old(pool) == [] then 0 else |old(pool)| - 1
      ensures c.Some? ==>
        && c.value < |comps| && Active(comps[c.value]) && comps[c.value].members == [] && old(comps)[c.value].free
        && forall d: nat :: d < |comps| && d != c.value ==> comps[d] == old(comps)[d]
    {
      hide Within;
      ghost var s := View();
      if CanAlloc(s, page) {
        AllocKeeps(s, page, {});
        AllocFacts(s, page);
      }
      c := Alloc(page);
    }

    /** spd_mpd_depricate of an empty composite. */
    method Deprecate(c: Cid, ghost stale: set<Cid>)
      requires Within(View(), multiset{}, stale, pt) && Mastered(View()) && stale <= {c}
      requires c < |comps| && Active(comps[c]) && comps[c].members == []
      modifies this
      ensures Within(View(), multiset{}, {}, pt) && Mastered(View())
      ensures current == old(current) && stacks == old(stacks)
      ensures NoneActivated(old(comps), comps) && !Active(comps[c])
    {
      hide Within;
      ghost var s := View();
      comps := comps[c := comps[c].(deprecated := true)];
      RetireKeeps(s, c, View(), stale, pt);
      assert stale - {c} == {};
      GiveBack(c);
    }

    lemma CanSplitIs(c: Cid, page1: Option<Table>, page2: Option<Table>)
      requires Inv(View()) && c < |comps| && Active(comps[c])
      ensures CanSplit(View(), c, page1, page2)
              <==> |comps[c].members| != 1 && CanAlloc(View(), page1)
                   && (comps[c].ref == 1 || (|freelist| > 1 && (|pool| > 1 || page2.Some?)))
    {
      OneReference(View(), c);
      MembersAreSpds(View(), c);
      hide Inv;
      hide Unreferenced;
    }

    /** mpd_split: x gets a composite of its own; the composite it leaves is reused if nothing refers to
        it, and otherwise deprecated and replaced. */
    method Split(x: Spd, page1: Option<Table>, page2: Option<Table>) returns (ok: bool, new1: Cid, rest: Cid)
      requires Inv(View()) && x in current
      requires (page1.Some? ==> page1.value !in pt)
      requires (page2.Some? ==> page2.value !in pt) && (page1.Some? ==> page1 != page2)
      modifies this
      ensures Inv(View()) && stacks == old(stacks)
      ensures old(current)[x] < |old(comps)| && (ok <==> CanSplit(old(View()), old(current)[x], page1, page2))
      ensures !ok ==> current == old(current)
      ensures ok ==> SplitOff(old(current), current, x) && |old(freelist)| > 0 && new1 == old(freelist)[0]
      ensures ok ==> if Unreferenced(old(View()), old(current)[x]) then rest == old(current)[x]
                     else |old(freelist)| > 1 && rest == old(freelist)[1]
      ensures ok ==> (current == map y | y in old(current) ::
                if y == x then new1 else if old(current)[y] == old(current)[x] then rest else old(current)[y])
    {
      hide Within;
      hide Mastered;
      CurrentIsActive(View(), x);
      var c := current[x];
      CanSplitIs(c, page1, page2);
      OneReference(View(), c);
      MembersAreSpds(View(), c);
      hide CanSplit;
      hide Unreferenced;
      hide Populated;
      ghost var s0 := View();
      ok, new1, rest := false, 0, c;
      if NumMembers(c) == 1 {
        return;
      }
      var d1 := AllocComposite(page1);
      if d1.None? {
        return;
      }
      new1 := d1.value;
      NobodyIn(View(), new1, {}, pt);
      if comps[c].ref == 1 {
        Shrink(x, new1);
        SplitPopulated(s0, View(), x, c, new1, rest);
        ok := true;
        return;
      }
      ok, rest := Replace(x, new1, page2);
      if ok {
        SplitPopulated(s0, View(), x, c, new1, rest);
      } else {
        StillPopulated(s0, View());
      }
    }

    /** The part of mpd_split that replaces a composite which something refers to; without a second descriptor the first
        new one is given back. */
    method Replace(x: Spd, new1: Cid, page: Option<Table>) returns (ok: bool, rest: Cid)
      requires Within(View(), multiset{}, {}, pt) && Mastered(View()) && (page.Some? ==> page.value !in pt)
      requires x in current && current[x] < |comps| && Active(comps[current[x]]) && current[x] != new1
      requires new1 < |comps| && Active(comps[new1]) && comps[new1].members == []
      modifies this
      ensures Within(View(), multiset{}, {}, pt) && Mastered(View()) && stacks == old(stacks) && |comps| == |old(comps)|
      ensures ok <==> old(CanAlloc(View(), page))
      ensures !ok ==> current == old(current) && NoneActivated(old(comps), comps) && !Active(comps[new1])
      ensures ok ==> |old(freelist)| > 0 && rest == old(freelist)[0] && rest != new1
      ensures ok ==> forall y :: y in old(current) ==> old(current)[y] != rest
      ensures ok ==> (current == map y | y in old(current) ::
                if y == x then new1 else if old(current)[y] == old(current)[x] then rest else old(current)[y])
      ensures ok ==> forall d: nat :: d < |comps| && Active(comps[d]) ==>
                d == rest || (d != old(current)[x] && Active(old(comps)[d]))
    {
      hide Within;
      hide Mastered;
      var c := current[x];
      ok, rest := false, c;
      var d := AllocComposite(page);
      if d.None? {
        Deprecate(new1, {});
        return;
      }
      rest := d.value;
      NobodyIn(View(), rest, {}, pt);
      Populate(new1, rest, x, c);
      Deprecate(c, {c});
      ok := true;
    }

    /** mpd_split_composite_populate without a second composite: c, which no frame uses, just loses x. */
    method Shrink(x: Spd, new1: Cid)
      requires Within(View(), multiset{}, {}, pt) && Mastered(View())
      requires x in current && current[x] < |comps| && new1 < |comps|
      requires Active(comps[new1]) && Active(comps[current[x]]) && current[x] != new1 && comps[current[x]].ref == 1
      modifies this
      ensures Within(View(), multiset{}, {}, pt) && Mastered(View())
      ensures current == old(current)[x := new1] && stacks == old(stacks) && |comps| == |old(comps)|
      ensures forall d: nat :: d < |comps| ==> (Active(comps[d]) <==> Active(old(comps)[d]))
    {
      hide Within;
      hide Mastered;
      ghost var s := View();
      var c := current[x];
      MoveKeeps(s, x, new1, true, multiset{}, {}, pt);
      MoveFacts(s, x, new1, true, {}, multiset{}, pt);
      ActiveIsOwner(s, c, pt);
      MoveMember(x, new1, true);
      UnusedView(View(), c, multiset{}, {}, s.pt, pt);
    }

    ghost predicate ThreadOk(t: nat)
      reads this`stacks
    {
      t < |stacks| && stacks[t] != []
    }

    /** thd_spd_in_composite, for the composite of the thread's top frame. */
    predicate InTopComposite(t: nat, x: Spd)
      requires t < |stacks| && stacks[t] != []
      reads this
    {
      var c := stacks[t][|stacks[t]| - 1].comp;
      x in current && c < |comps|
      && (current[x] == c || (comps[c].pgTbl in pt && x in pt[comps[c].pgTbl]))
    }

    lemma InTopIsMapped(t: nat, x: Spd)
      requires Inv(View()) && ThreadOk(t)
      ensures InTopComposite(t, x) <==> MappedIn(View(), TopOf(View(), t), x)
    {
      hide Inv;
      hide MappedIn;
      TopIsLive(View(), t);
      FoundIsMapped(View(), TopOf(View(), t), x);
    }

    /** Takes a reference on x's composite and pushes a frame for x. */
    method Push(t: nat, x: Spd)
      requires Within(View(), multiset{}, {}, pt) && Mastered(View()) && t < |stacks| && x in current
      modifies this
      ensures Within(View(), multiset{}, {}, pt) && Mastered(View())
      ensures current == old(current) && pt == old(pt)
      ensures stacks == old(stacks)[t := old(stacks)[t] + [Frame(current[x], x)]] && NoneActivated(old(comps), comps)
    {
      hide Within;
      PushKeeps(View(), t, x);
      var c := current[x];
      comps := comps[c := comps[c].(ref := comps[c].ref + 1)];
      stacks := stacks[t := stacks[t] + [Frame(c, x)]];
    }

    /** ipc_walk_static_cap, for a capability of `owner` on `dest`. */
    method Invoke(t: nat, owner: Spd, dest: Spd) returns (ok: bool)
      requires Inv(View()) && ThreadOk(t) && dest in current
      modifies this
      ensures Inv(View()) && current == old(current) && pt == old(pt)
      ensures ok <==> MappedIn(old(View()), TopOf(old(View()), t), owner)
      ensures !ok ==> View() == old(View())
      ensures stacks == if ok then old(stacks)[t := old(stacks)[t] + [Frame(current[dest], dest)]] else old(stacks)
    {
      hide Within;
      hide Mastered;
      hide MappedIn;
      hide TopOf;
      InTopIsMapped(t, owner);
      hide InTopComposite;
      ok := InTopComposite(t, owner);
      if ok {
        Push(t, dest);
      }
    }

    /** Takes frame i off the stack of thread t and releases its composite. */
    method DropFrame(t: nat, i: nat)
      requires Within(View(), multiset{}, {}, pt) && Mastered(View()) && t < |stacks| && i < |stacks[t]|
      modifies this
      ensures Within(View(), multiset{}, {}, pt) && Mastered(View())
      ensures current == old(current) && pt == old(pt)
      ensures stacks == old(stacks)[t := old(stacks)[t][..i] + old(stacks)[t][i + 1..]]
      ensures NoneActivated(old(comps), comps)
    {
      hide Within;
      hide Mastered;
      DropKeeps(View(), t, i);
      var c := stacks[t][i].comp;
      stacks := stacks[t := stacks[t][..i] + stacks[t][i + 1..]];
      StackMastered(old(View()), View());
      GiveBack(c);
    }

    /** pop: the top frame goes; a thread without invocations is sent to the scheduler instead. */
    method Return(t: nat, sched: Spd)
      requires Inv(View()) && ThreadOk(t) && sched in current
      modifies this
      ensures Inv(View()) && current == old(current) && pt == old(pt)
      ensures var st := old(stacks)[t];
              stacks == old(stacks)[t := if |st| > 1 then st[..|st| - 1] else [Frame(current[sched], sched)]]
    {
      hide Within;
      hide Mastered;
      var n := |stacks[t]| - 1;
      DropFrame(t, n);
      assert stacks[t] == old(stacks)[t][..n];
      if n == 0 {
        Push(t, sched);
        assert stacks[t] == [Frame(current[sched], sched)];
      }
    }

    /** thd_invstk_rem_nth: removes the nth frame below the top, never the base frame. */
    method RemoveFrame(t: nat, nth: int) returns (ok: bool)
      requires Inv(View()) && ThreadOk(t)
      modifies this
      ensures Inv(View()) && current == old(current) && pt == old(pt)
      ensures ok <==> 0 <= nth < |old(stacks)[t]| - 1
      ensures !ok ==> View() == old(View())
      ensures ok ==> var st := old(stacks)[t];
                     var i := |st| - 1 - nth;
                     stacks == old(stacks)[t := st[..i] + st[i + 1..]]
    {
      hide Within;
      hide Mastered;
      var top := |stacks[t]| - 1;
      if nth < 0 || nth >= top {
        return false;
      }
      DropFrame(t, top - nth);
      return true;
    }

    /** Should the top frame's composite be replaced?  It should if it, or its master, is deprecated. */
    predicate Outdated(c: Cid)
      reads this`comps
    {
      c < |comps|
      && (comps[c].deprecated
          || (comps[c].subordinate && comps[c].master.Some? && comps[c].master.value < |comps|
              && comps[comps[c].master.value].deprecated))
    }

    lemma OutdatedIs(t: nat)
      requires Inv(View()) && ThreadOk(t)
      ensures Outdated(TopOf(View(), t)) <==> OutOfDate(View(), TopOf(View(), t))
    {
      hide Inv;
      hide OutOfDate;
      TopIsLive(View(), t);
      DeprecatedIsOutOfDate(View(), TopOf(View(), t));
    }

    /** The COS_MPD_UPDATE case of cos_syscall_mpd_cntl. */
    method Update(t: nat, x: Spd) returns (ok: bool)
      requires Inv(View()) && ThreadOk(t)
      modifies this
      ensures Inv(View()) && current == old(current) && pt == old(pt)
      ensures ok <==> MappedIn(old(View()), TopOf(old(View()), t), x)
      ensures var st := old(stacks)[t];
              var n := |st| - 1;
              if ok && st[n].spd == x && OutOfDate(old(View()), st[n].comp)
              then stacks == old(stacks)[t := st[n := Frame(current[x], x)]] else View() == old(View())
    {
      hide Within;
      hide Mastered;
      hide OutOfDate;
      hide MappedIn;
      InTopIsMapped(t, x);
      OutdatedIs(t);
      hide InTopComposite;
      hide Outdated;
      ok := InTopComposite(t, x);
      var n := |stacks[t]| - 1;
      var top := stacks[t][n];
      if !ok || top.spd != x || !Outdated(top.comp) {
        return;
      }
      Refresh(t);
    }

    /** The top frame's reference moves to its spd's present composite. */
    method Refresh(t: nat)
      requires Within(View(), multiset{}, {}, pt) && Mastered(View()) && ThreadOk(t)
      requires stacks[t][|stacks[t]| - 1].spd in current
      modifies this
      ensures Within(View(), multiset{}, {}, pt) && Mastered(View())
      ensures current == old(current) && pt == old(pt)
      ensures var st := old(stacks)[t];
              var n := |st| - 1;
              stacks == old(stacks)[t := st[n := Frame(current[st[n].spd], st[n].spd)]]
      ensures NoneActivated(old(comps), comps)
    {
      hide Within;
      hide Mastered;
      RedirectKeeps(View(), t);
      var n := |stacks[t]| - 1;
      var top := stacks[t][n];
      var c := current[top.spd];
      comps := comps[c := comps[c].(ref := comps[c].ref + 1)];
      stacks := stacks[t := stacks[t][n := Frame(c, top.spd)]];
      StackMastered(old(View()), View());
      GiveBack(top.comp);
    }

    /** The COS_SPD_ACTIVATE case of cos_syscall_spd_cntl: a new spd gets a composite of its own.  The result is
        the index of the descriptor that the lookup yields; the model ends where that is outside the array. */
    method Activate(x: Spd, page: Option<Table>) returns (idx: int)
      requires Inv(View()) && x !in current && (page.Some? ==> page.value !in pt)
      modifies this
      ensures Inv(View()) && stacks == old(stacks)
      ensures idx == old(AllocIndex(View(), page)) && (0 <= idx < |comps| <==> old(CanAlloc(View(), page)))
      ensures idx < 0 ==> View() == old(View())
      ensures idx >= 0 ==> current == old(current)[x := idx] && forall y :: y in old(current) ==> old(current)[y] != idx
    {
      hide Within;
      hide Mastered;
      AllocatesReal(View(), page);
      ghost var s0 := View();
      var d := AllocComposite(page);
      idx := if d.Some? then d.value else -1;
      var cspd := ByIndex(|comps|, idx);
      assert cspd.Some?;
      if cspd.value < 0 {
        return;
      }
      var c: Cid := cspd.value;
      NobodyIn(View(), c, {}, pt);
      JoinKeeps(View(), x, c);
      StackMastered(View(), Joined(View(), x, c));
      pt := pt[comps[c].pgTbl := pt[comps[c].pgTbl] + {x}];
      comps := comps[c := comps[c].(members := [x] + comps[c].members)];
      current := current[x := c];
      JoinPopulated(s0, View(), x, c);
    }

    /** cos_syscall_create_thread: a thread whose base frame is in x. */
    method CreateThread(x: Spd)
      requires Inv(View()) && x in current
      modifies this
      ensures Inv(View()) && current == old(current) && pt == old(pt)
      ensures stacks == old(stacks) + [[Frame(current[x], x)]]
    {
      hide Within;
      hide Mastered;
      ghost var s := View();
      stacks := stacks + [[]];
      EmptyStack(s, View());
      Push(|stacks| - 1, x);
      assert [] + [Frame(current[x], x)] == [Frame(current[x], x)];
      assert stacks == s.stacks + [[Frame(current[x], x)]];
    }

    /** One system call; arguments the kernel rejects change nothing.  An activation needs a descriptor and a page
        table, since the kernel does not notice that there is none. */
    method Step(op: Op)
      requires Inv(View())
      modifies this
      ensures Inv(View()) && Stepped(old(View()), op, View())
    {
      hide Inv;
      hide MappedIn;
      hide OutOfDate;
      hide IsEmptied;
      hide CanSplit;
      hide SplitOff;
      match op
      case Activate(x, page) =>
        if x !in current && (page.Some? ==> page.value !in pt) && CanAlloc(View(), page) {
          var _ := Activate(x, page);
        }
      case CreateThread(x) =>
        if x in current {
          CreateThread(x);
        }
      case Invoke(t, owner, dest) =>
        StacksNonEmpty(View());
        if t < |stacks| && dest in current {
          var _ := Invoke(t, owner, dest);
        }
      case Return(t, sched) =>
        StacksNonEmpty(View());
        if t < |stacks| && sched in current {
          Return(t, sched);
        }
      case RemoveFrame(t, nth) =>
        StacksNonEmpty(View());
        if t < |stacks| {
          var _ := RemoveFrame(t, nth);
        }
      case Update(t, x) =>
        StacksNonEmpty(View());
        if t < |stacks| {
          TopIsMapped(View(), t);
          var _ := Update(t, x);
        }
      case Merge(x, y) =>
        if x in current && y in current && current[x] != current[y] {
          InvWithin(View());
          CurrentIsActive(View(), x);
          CurrentIsActive(View(), y);
          var _ := Merge(current[x], current[y]);
        }
      case Split(x, y, page1, page2) =>
        if x in current && y in current && current[x] == current[y] && FreshPages(View(), page1, page2) {
          var _, _, _ := Split(y, page1, page2);
        }
    }

    /** In every reachable state the spds of all frames are mapped, the reference counts are exact, tables are shared
        exactly within a subordination, and the pool holds exactly the tables out of use, once each. */
    method Run(ops: seq<Op>) returns (ghost ss: seq<State>)
      requires Inv(View())
      modifies this
      ensures Inv(View()) && Sound(View())
      ensures IsRun(ss, ops) && ss[0] == old(View()) && ss[|ops|] == View()
    {
      hide Inv;
      hide Sound;
      hide Stepped;
      ss := [View()];
      InvIsSound(View());
      for i := 0 to |ops|
        invariant Inv(View()) && Sound(View())
        invariant |ss| == i + 1 && ss[0] == old(View()) && ss[i] == View() && IsRun(ss, ops[..i])
      {
        Step(ops[i]);
        InvIsSound(View());
        LongerRun(ss, ops, i, View());
        ss := ss + [View()];
      }
      assert ops[..|ops|] == ops;
    }
  }
}
