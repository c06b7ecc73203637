/** The tables of the kernel's mutable protection domains (src/kernel/spd.c, src/kernel/inv.c) as values,
    their invariant, and what each kernel action makes of them.

    Page tables are abstracted to the set of spds mapped in them.  The circular list that joins a composite
    with its subordinates is the sequence `subs` of the composite; the ring of a composite's members is the
    sequence `members`, listed from the head pointer on. */
module MpdState {
  import opened Seqs

  type Spd = nat
  type Cid = nat
  type Table = nat

  datatype Composite = Composite(
    ref: int,
    free: bool,
    deprecated: bool,
    subordinate: bool,
    pgTbl: Table,
    members: seq<Spd>,
    master: Option<Cid>,
    subs: seq<Cid>)

  datatype Frame = Frame(comp: Cid, spd: Spd)

  datatype State = State(
    comps: seq<Composite>,
    freelist: seq<Cid>,
    current: map<Spd, Cid>,
    pt: map<Table, set<Spd>>,
    pool: seq<Table>,
    stacks: seq<seq<Frame>>)

  predicate Active(k: Composite) {
    !k.free && !k.deprecated && !k.subordinate
  }

  /** A composite that has not been made subordinate owns its page table. */
  predicate Owner(k: Composite) {
    !k.free && k.master.None?
  }

  // ----- references held by invocation frames

  ghost function InStack(st: seq<Frame>, c: Cid): nat {
    if st == [] then 0 else InStack(st[..|st| - 1], c) + if st[|st| - 1].comp == c then 1 else 0
  }

  ghost function Frames(stacks: seq<seq<Frame>>, c: Cid): nat {
    if stacks == [] then 0 else Frames(stacks[..|stacks| - 1], c) + InStack(stacks[|stacks| - 1], c)
  }

  lemma {:induction false} FramesUpdate(stacks: seq<seq<Frame>>, t: nat, st: seq<Frame>, c: Cid)
    requires t < |stacks|
    ensures Frames(stacks[t := st], c) == Frames(stacks, c) - InStack(stacks[t], c) + InStack(st, c)
  {
    var n := |stacks| - 1;
    if t == n {
      assert stacks[t := st][..n] == stacks[..n];
    } else {
      assert stacks[t := st][..n] == stacks[..n][t := st];
      FramesUpdate(stacks[..n], t, st, c);
    }
  }

  lemma {:induction false} InStackRemove(st: seq<Frame>, i: nat, c: Cid)
    requires i < |st|
    ensures InStack(st[..i] + st[i + 1..], c) == InStack(st, c) - if st[i].comp == c then 1 else 0
  {
    var n := |st| - 1;
    if i == n {
      assert st[..i] + st[i + 1..] == st[..n];
    } else {
      var r := st[..i] + st[i + 1..];
      assert r[..|r| - 1] == st[..n][..i] + st[..n][i + 1..];
      InStackRemove(st[..n], i, c);
    }
  }

  lemma {:induction false} InStackReplace(st: seq<Frame>, i: nat, f: Frame, c: Cid)
    requires i < |st|
    ensures InStack(st[i := f], c)
            == InStack(st, c) - (if st[i].comp == c then 1 else 0) + if f.comp == c then 1 else 0
  {
    var n := |st| - 1;
    if i == n {
      assert st[i := f][..n] == st[..n];
    } else {
      assert st[i := f][..n] == st[..n][i := f];
      InStackReplace(st[..n], i, f, c);
    }
  }

  // ----- the invariant

  ghost predicate FreeOk(s: State) {
    && Distinct(s.freelist)
    && (forall c: nat :: c in s.freelist <==> c < |s.comps| && s.comps[c].free)
    && (forall c :: 0 <= c < |s.comps| && s.comps[c].free ==>
          var k := s.comps[c];
          k.ref == 0 && k.members == [] && k.master.None? && k.subs == [] && !k.deprecated && !k.subordinate)
  }

  /** The reference count is the active reference, the frames, the subordinates and the pending releases. */
  ghost predicate RefOk(s: State, extra: multiset<Cid>) {
    && (forall c :: 0 <= c < |s.comps| ==>
          s.comps[c].ref == (if Active(s.comps[c]) then 1 else 0) + Frames(s.stacks, c) + |s.comps[c].subs| + extra[c])
    && (forall c :: 0 <= c < |s.comps| && !s.comps[c].free ==> s.comps[c].ref > 0)
  }

  /** Composite c lists, once each, the composites that name it as their master. */
  ghost predicate ListsSubordinates(s: State, c: Cid)
    requires c < |s.comps|
  {
    && Distinct(s.comps[c].subs)
    && forall x: nat :: x in s.comps[c].subs <==> x < |s.comps| && s.comps[x].master == Some(c)
  }

  /** Subordination is flat: a master owns the page table that its subordinates share. */
  ghost predicate TreeOk(s: State) {
    && (forall c: nat :: c < |s.comps| && s.comps[c].master.Some? ==>
          var k := s.comps[c];
          var m := k.master.value;
          && k.subordinate && !k.deprecated && !k.free && k.subs == []
          && m < |s.comps| && Owner(s.comps[m]) && k.pgTbl == s.comps[m].pgTbl)
    && (forall c: nat :: c < |s.comps| ==> ListsSubordinates(s, c))
  }

  /** A live composite that is no subordinate has page table p. */
  ghost predicate Owned(s: State, p: Table) {
    exists c: nat :: c < |s.comps| && Owner(s.comps[c]) && s.comps[c].pgTbl == p
  }

  /** Every owner has a page table to itself, outside the pool; the pool holds every other table, once. */
  ghost predicate TableOk(s: State) {
    && (forall c :: 0 <= c < |s.comps| && Owner(s.comps[c]) ==> s.comps[c].pgTbl in s.pt && s.comps[c].pgTbl !in s.pool)
    && (forall c, d :: 0 <= c < |s.comps| && 0 <= d < |s.comps| && Owner(s.comps[c]) && Owner(s.comps[d]) && c != d ==>
          s.comps[c].pgTbl != s.comps[d].pgTbl)
    && Distinct(s.pool) && (forall p :: p in s.pool ==> p in s.pt)
    && (forall p :: p in s.pt ==> p in s.pool || Owned(s, p))
  }

  lemma StillOwned(s: State, r: State, p: Table, c: Cid)
    requires Owned(s, p) && |r.comps| >= |s.comps|
    requires forall d: nat :: d < |s.comps| && d != c && Owner(s.comps[d]) ==>
      Owner(r.comps[d]) && r.comps[d].pgTbl == s.comps[d].pgTbl
    ensures Owned(r, p) || (c < |s.comps| && Owner(s.comps[c]) && s.comps[c].pgTbl == p)
  {
    var d: nat :| d < |s.comps| && Owner(s.comps[d]) && s.comps[d].pgTbl == p;
  }

  /** Tables are right as long as owners and tables are the same. */
  lemma SameOwners(s: State, r: State)
    requires TableOk(s) && |r.comps| == |s.comps| && r.pool == s.pool && r.pt.Keys == s.pt.Keys
    requires forall d: nat :: d < |s.comps| ==> Owner(r.comps[d]) == Owner(s.comps[d])
    requires forall d: nat :: d < |s.comps| && Owner(s.comps[d]) ==> r.comps[d].pgTbl == s.comps[d].pgTbl
    ensures TableOk(r)
  {
    hide Owned;
    forall p | p in r.pt && p !in r.pool
      ensures Owned(r, p)
    {
      StillOwned(s, r, p, |s.comps|);
    }
  }

  /** Composite c lists, once each, the spds that point to it. */
  ghost predicate ListsMembers(s: State, c: Cid)
    requires c < |s.comps|
  {
    && Distinct(s.comps[c].members)
    && forall x: nat :: x in s.comps[c].members <==> x in s.current && s.current[x] == c
  }

  /** The members of an active composite are mapped in its table and, but for the composites in `stale`,
      nothing else is. */
  ghost predicate MapsMembers(s: State, c: Cid, stale: set<Cid>)
    requires c < |s.comps|
  {
    var k := s.comps[c];
    k.pgTbl in s.pt && Elems(k.members) <= s.pt[k.pgTbl] && (c !in stale ==> Elems(k.members) == s.pt[k.pgTbl])
  }

  ghost predicate MemberOk(s: State, stale: set<Cid>) {
    && (forall c: nat :: c < |s.comps| ==> ListsMembers(s, c))
    && (forall c: nat :: c < |s.comps| && Active(s.comps[c]) ==> MapsMembers(s, c, stale))
    && (forall x :: x in s.current ==> s.current[x] < |s.comps| && Active(s.comps[s.current[x]]))
  }

  /** The spd a frame was pushed for is in view in the page table of the frame's composite. */
  ghost predicate FrameInView(s: State, f: Frame, view: map<Table, set<Spd>>) {
    && f.comp < |s.comps| && !s.comps[f.comp].free && f.spd in s.current
    && s.comps[f.comp].pgTbl in view && f.spd in view[s.comps[f.comp].pgTbl]
  }

  ghost predicate FrameOk(s: State, view: map<Table, set<Spd>>) {
    forall t, i :: 0 <= t < |s.stacks| && 0 <= i < |s.stacks[t]| ==> FrameInView(s, s.stacks[t][i], view)
  }

  /** The invariant inside a kernel action: `extra` releases are still due, the composites of `stale` have
      mappings of former members, and frames are judged by `view`. */
  ghost predicate Within(s: State, extra: multiset<Cid>, stale: set<Cid>, view: map<Table, set<Spd>>) {
    FreeOk(s) && RefOk(s, extra) && TreeOk(s) && TableOk(s) && MemberOk(s, stale) && FrameOk(s, view)
  }

  /** The invariant between kernel actions. */
  ghost predicate Inv(s: State) {
    && Within(s, multiset{}, {}, s.pt)
    && Mastered(s)
    && (forall t :: 0 <= t < |s.stacks| ==> s.stacks[t] != [])
    && Populated(s)
  }

  /** Every active composite has an spd. */
  ghost predicate Populated(s: State) {
    forall c: nat :: c < |s.comps| && Active(s.comps[c]) ==> exists x :: x in s.current && s.current[x] == c
  }

  /** No composite has become active. */
  ghost predicate NoneActivated(was: seq<Composite>, now: seq<Composite>) {
    |now| == |was| && forall c :: 0 <= c < |now| && Active(now[c]) ==> Active(was[c])
  }

  lemma StillPopulated(s: State, r: State)
    requires Populated(s) && NoneActivated(s.comps, r.comps) && r.current == s.current
    ensures Populated(r)
  {
  }

  lemma {:induction false} ReleaseActivatesNone(s: State, c: Cid)
    requires c < |s.comps|
    requires s.comps[c].master.Some? ==>
      var m := s.comps[c].master.value; m < |s.comps| && m != c && s.comps[m].master.None?
    ensures NoneActivated(s.comps, Released(s, c).comps)
    ensures !Active(s.comps[c]) ==> !Active(Released(s, c).comps[c])
    decreases if s.comps[c].master.Some? then 1 else 0
  {
    var k := s.comps[c];
    if k.ref == 1 && k.master.Some? {
      var m := k.master.value;
      var t := s.(comps := s.comps[c := Freed(k)][m := s.comps[m].(subs := Without(s.comps[m].subs, c))],
                  freelist := [c] + s.freelist);
      ReleaseActivatesNone(t, m);
    }
  }

  lemma Parts(s: State, extra: multiset<Cid>, stale: set<Cid>, view: map<Table, set<Spd>>)
    requires Within(s, extra, stale, view)
    ensures FreeOk(s) && RefOk(s, extra) && TreeOk(s) && TableOk(s) && MemberOk(s, stale) && FrameOk(s, view)
  {
  }

  lemma Whole(s: State, extra: multiset<Cid>, stale: set<Cid>, view: map<Table, set<Spd>>)
    requires FreeOk(s) && RefOk(s, extra) && TreeOk(s) && TableOk(s) && MemberOk(s, stale) && FrameOk(s, view)
    ensures Within(s, extra, stale, view)
  {
  }

  // ----- spd_mpd_release

  function Freed(k: Composite): Composite {
    Composite(0, true, false, false, k.pgTbl, [], None, [])
  }

  /** Releases one reference; the last one frees the composite and either gives its page table back or
      releases its master.  The measure is the recursion depth that remains: at most one. */
  function Released(s: State, c: Cid): (r: State)
    requires c < |s.comps|
    requires s.comps[c].master.Some? ==>
      var m := s.comps[c].master.value; m < |s.comps| && m != c && s.comps[m].master.None?
    ensures |r.comps| == |s.comps| && r.current == s.current && r.pt == s.pt && r.stacks == s.stacks
    decreases if s.comps[c].master.Some? then 1 else 0
  {
    var k := s.comps[c];
    if k.ref != 1 then
      s.(comps := s.comps[c := k.(ref := k.ref - 1)])
    else if k.master.Some? then
      var m := k.master.value;
      var master := s.comps[m];
      Released(s.(comps := s.comps[c := Freed(k)][m := master.(subs := Without(master.subs, c))],
                  freelist := [c] + s.freelist), m)
    else
      s.(comps := s.comps[c := Freed(k)], freelist := [c] + s.freelist, pool := [k.pgTbl] + s.pool)
  }

  // ----- how the parts of the invariant depend on the tables

  ghost predicate Unlike(s: State, r: State, c: Cid) {
    |r.comps| == |s.comps| && c < |s.comps| && forall d :: 0 <= d < |s.comps| && d != c ==> r.comps[d] == s.comps[d]
  }

  /** Only the reference count of composite c, which stays live, differs. */
  ghost predicate RefDiffers(s: State, r: State, c: Cid) {
    && Unlike(s, r, c) && !s.comps[c].free && r.comps[c] == s.comps[c].(ref := r.comps[c].ref)
    && r.freelist == s.freelist && r.current == s.current && r.pt == s.pt && r.pool == s.pool
  }

  lemma RefDiffersFree(s: State, r: State, c: Cid)
    requires RefDiffers(s, r, c) && FreeOk(s)
    ensures FreeOk(r)
  {
  }

  lemma RefDiffersTree(s: State, r: State, c: Cid)
    requires RefDiffers(s, r, c) && TreeOk(s)
    ensures TreeOk(r)
  {
    forall d: nat | d < |r.comps|
      ensures ListsSubordinates(r, d)
    {
      assert ListsSubordinates(s, d);
    }
  }

  lemma RefDiffersTable(s: State, r: State, c: Cid)
    requires RefDiffers(s, r, c) && TableOk(s)
    ensures TableOk(r)
  {
    SameOwners(s, r);
  }

  lemma RefDiffersMember(s: State, r: State, c: Cid, stale: set<Cid>)
    requires RefDiffers(s, r, c) && MemberOk(s, stale)
    ensures MemberOk(r, stale)
  {
    forall d: nat | d < |r.comps|
      ensures ListsMembers(r, d) && (Active(r.comps[d]) ==> MapsMembers(r, d, stale))
    {
      assert ListsMembers(s, d);
      assert Active(s.comps[d]) ==> MapsMembers(s, d, stale);
    }
  }

  lemma RefDiffersFrame(s: State, r: State, c: Cid, view: map<Table, set<Spd>>)
    requires RefDiffers(s, r, c) && FrameOk(s, view) && r.stacks == s.stacks
    ensures FrameOk(r, view)
  {
    forall t, i | 0 <= t < |r.stacks| && 0 <= i < |r.stacks[t]|
      ensures FrameInView(r, r.stacks[t][i], view)
    {
      assert FrameInView(s, s.stacks[t][i], view);
    }
  }

  lemma ReleaseDecrements(s: State, c: Cid, extra: multiset<Cid>, stale: set<Cid>, view: map<Table, set<Spd>>, r: State)
    requires Within(s, extra, stale, view) && c < |s.comps| && c in extra && s.comps[c].ref != 1
    requires r == s.(comps := s.comps[c := s.comps[c].(ref := s.comps[c].ref - 1)])
    ensures Within(r, extra - multiset{c}, stale, view)
  {
    RefDiffersFree(s, r, c);
    RefDiffersTree(s, r, c);
    RefDiffersTable(s, r, c);
    RefDiffersMember(s, r, c, stale);
    RefDiffersFrame(s, r, c, view);
    assert RefOk(r, extra - multiset{c});
  }

  lemma {:induction false} NoFrameInStack(st: seq<Frame>, c: Cid, i: nat)
    requires InStack(st, c) == 0 && i < |st|
    ensures st[i].comp != c
  {
    if i < |st| - 1 {
      NoFrameInStack(st[..|st| - 1], c, i);
    }
  }

  lemma {:induction false} NoFrame(stacks: seq<seq<Frame>>, c: Cid, t: nat, i: nat)
    requires Frames(stacks, c) == 0 && t < |stacks| && i < |stacks[t]|
    ensures stacks[t][i].comp != c
  {
    if t < |stacks| - 1 {
      NoFrame(stacks[..|stacks| - 1], c, t, i);
    } else {
      NoFrameInStack(stacks[t], c, i);
    }
  }

  /** What a composite is like whose last reference is released: nothing refers to it any more. */
  lemma LastReference(s: State, c: Cid, extra: multiset<Cid>, stale: set<Cid>)
    requires FreeOk(s) && RefOk(s, extra) && MemberOk(s, stale)
    requires c < |s.comps| && c in extra && s.comps[c].ref == 1
    ensures !Active(s.comps[c]) && !s.comps[c].free && s.comps[c].subs == [] && s.comps[c].members == []
    ensures extra[c] == 1 && Frames(s.stacks, c) == 0 && (s.comps[c].deprecated || s.comps[c].subordinate)
    ensures forall x :: x in s.current ==> s.current[x] != c
  {
    assert ListsMembers(s, c);
    FirstIn(s.comps[c].members);
  }

  /** Composite c has been freed; if it had a master, the master no longer lists it. */
  ghost predicate FreeDiffers(s: State, r: State, c: Cid) {
    && c < |s.comps| && |r.comps| == |s.comps| && r.comps[c] == Freed(s.comps[c])
    && !s.comps[c].free && s.comps[c].subs == [] && s.comps[c].members == [] && !Active(s.comps[c])
    && r.freelist == [c] + s.freelist && r.current == s.current && r.pt == s.pt && r.stacks == s.stacks
    && (match s.comps[c].master
        case None =>
          && r.pool == [s.comps[c].pgTbl] + s.pool
          && forall d: nat :: d < |s.comps| && d != c ==> r.comps[d] == s.comps[d]
        case Some(m) =>
          && r.pool == s.pool && m < |s.comps| && m != c
          && r.comps[m] == s.comps[m].(subs := Without(s.comps[m].subs, c))
          && forall d: nat :: d < |s.comps| && d != c && d != m ==> r.comps[d] == s.comps[d])
  }

  lemma FreeDiffersFree(s: State, r: State, c: Cid)
    requires FreeDiffers(s, r, c) && FreeOk(s) && TreeOk(s)
    ensures FreeOk(r)
  {
    assert c !in s.freelist;
    assert forall d: nat :: d in r.freelist <==> d == c || d in s.freelist;
  }

  lemma FreeDiffersTree(s: State, r: State, c: Cid)
    requires FreeDiffers(s, r, c) && TreeOk(s)
    ensures TreeOk(r)
  {
    assert ListsSubordinates(s, c);
    forall d: nat | d < |r.comps|
      ensures ListsSubordinates(r, d)
    {
      assert ListsSubordinates(s, d);
      WithoutElems(s.comps[d].subs, c);
      assert forall x: nat :: x in Without(s.comps[d].subs, c) <==> x in Elems(Without(s.comps[d].subs, c));
      assert forall x: nat :: x in s.comps[d].subs <==> x in Elems(s.comps[d].subs);
    }
  }

  lemma FreeDiffersTable(s: State, r: State, c: Cid)
    requires FreeDiffers(s, r, c) && TableOk(s)
    ensures TableOk(r)
  {
    hide Owned;
    forall p | p in r.pt && p !in r.pool
      ensures Owned(r, p)
    {
      StillOwned(s, r, p, c);
    }
  }

  lemma FreeDiffersMember(s: State, r: State, c: Cid, stale: set<Cid>)
    requires FreeDiffers(s, r, c) && MemberOk(s, stale)
    ensures MemberOk(r, stale)
  {
    forall d: nat | d < |r.comps|
      ensures ListsMembers(r, d) && (Active(r.comps[d]) ==> MapsMembers(r, d, stale))
    {
      assert ListsMembers(s, d);
      assert Active(s.comps[d]) ==> MapsMembers(s, d, stale);
    }
  }

  lemma FreeDiffersFrame(s: State, r: State, c: Cid, view: map<Table, set<Spd>>)
    requires FreeDiffers(s, r, c) && FrameOk(s, view) && Frames(s.stacks, c) == 0
    ensures FrameOk(r, view)
  {
    forall t, i | 0 <= t < |r.stacks| && 0 <= i < |r.stacks[t]|
      ensures FrameInView(r, r.stacks[t][i], view)
    {
      assert FrameInView(s, s.stacks[t][i], view);
      NoFrame(s.stacks, c, t, i);
    }
  }

  lemma FreeDiffersRef(s: State, r: State, c: Cid, extra: multiset<Cid>)
    requires FreeDiffers(s, r, c) && RefOk(s, extra) && TreeOk(s) && s.comps[c].ref == 1 && extra[c] == 1
    ensures var m := s.comps[c].master;
            RefOk(r, extra - multiset{c} + if m.Some? then multiset{m.value} else multiset{})
  {
    if s.comps[c].master.Some? {
      var m := s.comps[c].master.value;
      assert ListsSubordinates(s, m);
      WithoutElems(s.comps[m].subs, c);
    }
  }

  /** Releasing a due reference keeps the invariant. */
  lemma {:induction false} ReleaseKeeps(s: State, c: Cid, extra: multiset<Cid>, stale: set<Cid>,
                                        view: map<Table, set<Spd>>)
    requires Within(s, extra, stale, view) && c < |s.comps| && c in extra
    ensures s.comps[c].master.Some? ==>
      var m := s.comps[c].master.value; m < |s.comps| && m != c && s.comps[m].master.None?
    ensures Within(Released(s, c), extra - multiset{c}, stale, view)
    decreases if s.comps[c].master.Some? then 1 else 0
  {
    if s.comps[c].master.Some? {
      MasterIsOwner(s, c, extra, stale, view);
    }
    hide Within;
    var k := s.comps[c];
    if k.ref != 1 {
      ReleaseDecrements(s, c, extra, stale, view, Released(s, c));
    } else {
      FreeingKeeps(s, c, extra, stale, view);
      if k.master.Some? {
        var m := k.master.value;
        ReleaseKeeps(FreedStep(s, c), m, extra - multiset{c} + multiset{m}, stale, view);
        assert extra - multiset{c} + multiset{m} - multiset{m} == extra - multiset{c};
      } else {
        assert extra - multiset{c} + multiset{} == extra - multiset{c};
      }
    }
  }

  lemma MasterIsOwner(s: State, c: Cid, extra: multiset<Cid>, stale: set<Cid>, view: map<Table, set<Spd>>)
    requires Within(s, extra, stale, view) && c < |s.comps| && s.comps[c].master.Some?
    ensures var m := s.comps[c].master.value; m < |s.comps| && m != c && s.comps[m].master.None?
  {
  }

  /** Freeing a composite with its last reference leaves, at most, a reference of its master to be released. */
  lemma FreeingKeeps(s: State, c: Cid, extra: multiset<Cid>, stale: set<Cid>, view: map<Table, set<Spd>>)
    requires Within(s, extra, stale, view) && c < |s.comps| && c in extra && s.comps[c].ref == 1
    requires s.comps[c].master.Some? ==> s.comps[c].master.value < |s.comps| && s.comps[c].master.value != c
    ensures var m := s.comps[c].master;
            Within(FreedStep(s, c), extra - multiset{c} + (if m.Some? then multiset{m.value} else multiset{}),
                   stale, view)
  {
    LastReference(s, c, extra, stale);
    var r := FreedStep(s, c);
    assert FreeDiffers(s, r, c);
    hide FreeDiffers;
    FreeDiffersFree(s, r, c);
    FreeDiffersTree(s, r, c);
    FreeDiffersTable(s, r, c);
    FreeDiffersMember(s, r, c, stale);
    FreeDiffersFrame(s, r, c, view);
    FreeDiffersRef(s, r, c, extra);
  }

  ghost function FreedStep(s: State, c: Cid): State
    requires c < |s.comps| && (s.comps[c].master.Some? ==> s.comps[c].master.value < |s.comps|)
  {
    var k := s.comps[c];
    if k.master.Some? then
      var m := k.master.value;
      s.(comps := s.comps[c := Freed(k)][m := s.comps[m].(subs := Without(s.comps[m].subs, c))],
         freelist := [c] + s.freelist)
    else
      s.(comps := s.comps[c := Freed(k)], freelist := [c] + s.freelist, pool := [k.pgTbl] + s.pool)
  }

  /** Releasing changes neither a live composite's master nor its being a subordinate. */
  lemma {:induction false} ReleaseKeepsMasters(s: State, c: Cid, d: Cid)
    requires c < |s.comps| && d < |s.comps|
    requires s.comps[c].master.Some? ==>
      var m := s.comps[c].master.value; m < |s.comps| && m != c && s.comps[m].master.None?
    ensures var r := Released(s, c);
            || r.comps[d].free
            || (r.comps[d].master == s.comps[d].master && r.comps[d].subordinate == s.comps[d].subordinate)
    ensures s.comps[c].ref == 1 ==> Released(s, c).comps[c].free
    decreases if s.comps[c].master.Some? then 1 else 0
  {
    var k := s.comps[c];
    if k.ref == 1 && k.master.Some? {
      ReleaseKeepsMasters(FreedStep(s, c), k.master.value, d);
      ReleaseKeepsMasters(FreedStep(s, c), k.master.value, c);
    }
  }

  // ----- frames are pushed, dropped and redirected

  /** A frame for spd x, in x's present composite, is pushed with a reference taken. */
  function Pushed(s: State, t: nat, x: Spd): State
    requires t < |s.stacks| && x in s.current && s.current[x] < |s.comps|
  {
    var c := s.current[x];
    s.(comps := s.comps[c := s.comps[c].(ref := s.comps[c].ref + 1)],
       stacks := s.stacks[t := s.stacks[t] + [Frame(c, x)]])
  }

  lemma PushKeeps(s: State, t: nat, x: Spd)
    requires Within(s, multiset{}, {}, s.pt) && t < |s.stacks| && x in s.current
    ensures s.current[x] < |s.comps| && Within(Pushed(s, t, x), multiset{}, {}, s.pt)
  {
    hide FreeOk;
    hide TreeOk;
    hide TableOk;
    hide RefOk;
    var c := s.current[x];
    var r := Pushed(s, t, x);
    assert ListsMembers(s, c) && MapsMembers(s, c, {});
    RefDiffersFree(s, r, c);
    RefDiffersTree(s, r, c);
    RefDiffersTable(s, r, c);
    RefDiffersMember(s, r, c, {});
    PushRef(s, r, t, Frame(c, x));
    forall u, i | 0 <= u < |r.stacks| && 0 <= i < |r.stacks[u]|
      ensures FrameInView(r, r.stacks[u][i], s.pt)
    {
      if u != t || i < |s.stacks[t]| {
        assert FrameInView(s, s.stacks[u][i], s.pt);
      } else {
        assert x in Elems(s.comps[c].members);
      }
    }
  }

  lemma PushRef(s: State, r: State, t: nat, f: Frame)
    requires RefOk(s, multiset{}) && t < |s.stacks| && f.comp < |s.comps|
    requires r.stacks == s.stacks[t := s.stacks[t] + [f]]
    requires r.comps == s.comps[f.comp := s.comps[f.comp].(ref := s.comps[f.comp].ref + 1)]
    ensures RefOk(r, multiset{})
  {
    var st := s.stacks[t] + [f];
    assert st[..|st| - 1] == s.stacks[t];
    forall d: nat | d < |r.comps|
      ensures Frames(r.stacks, d) == Frames(s.stacks, d) + if d == f.comp then 1 else 0
    {
      FramesUpdate(s.stacks, t, st, d);
    }
  }

  /** The frame at index i of thread t is taken off its stack; its reference is still to be released. */
  function Dropped(s: State, t: nat, i: nat): State
    requires t < |s.stacks| && i < |s.stacks[t]|
  {
    s.(stacks := s.stacks[t := s.stacks[t][..i] + s.stacks[t][i + 1..]])
  }

  lemma DropRef(s: State, r: State, t: nat, i: nat)
    requires RefOk(s, multiset{}) && t < |s.stacks| && i < |s.stacks[t]| && r == Dropped(s, t, i)
    ensures RefOk(r, multiset{s.stacks[t][i].comp})
  {
    var f := s.stacks[t][i];
    forall d: nat | d < |s.comps|
      ensures Frames(r.stacks, d) == Frames(s.stacks, d) - if d == f.comp then 1 else 0
    {
      FramesUpdate(s.stacks, t, r.stacks[t], d);
      InStackRemove(s.stacks[t], i, d);
    }
  }

  lemma DropKeeps(s: State, t: nat, i: nat)
    requires Within(s, multiset{}, {}, s.pt) && t < |s.stacks| && i < |s.stacks[t]|
    ensures s.stacks[t][i].comp < |s.comps|
    ensures Within(Dropped(s, t, i), multiset{s.stacks[t][i].comp}, {}, s.pt)
  {
    var f := s.stacks[t][i];
    var r := Dropped(s, t, i);
    assert FrameInView(s, f, s.pt);
    hide FreeOk;
    hide RefOk;
    hide TreeOk;
    hide TableOk;
    hide MemberOk;
    DropRef(s, r, t, i);
    SameTables(s, r, {});
    forall u, j | 0 <= u < |r.stacks| && 0 <= j < |r.stacks[u]|
      ensures FrameInView(r, r.stacks[u][j], s.pt)
    {
      assert FrameInView(s, s.stacks[u][if u == t && j >= i then j + 1 else j], s.pt);
    }
  }

  lemma SameTables(s: State, r: State, stale: set<Cid>)
    requires FreeOk(s) && TreeOk(s) && TableOk(s) && MemberOk(s, stale)
    requires r == s.(stacks := r.stacks)
    ensures FreeOk(r) && TreeOk(r) && TableOk(r) && MemberOk(r, stale)
  {
    hide TableOk;
    SameTable(s, r);
    forall d: nat | d < |r.comps|
      ensures ListsMembers(r, d) && (Active(r.comps[d]) ==> MapsMembers(r, d, stale)) && ListsSubordinates(r, d)
    {
      assert ListsMembers(s, d) && ListsSubordinates(s, d);
      assert Active(s.comps[d]) ==> MapsMembers(s, d, stale);
    }
  }

  lemma SameTable(s: State, r: State)
    requires TableOk(s) && r == s.(stacks := r.stacks)
    ensures TableOk(r)
  {
    SameOwners(s, r);
  }

  /** The top frame of thread t moves to its spd's present composite, with a reference taken; the old
      reference is still to be released. */
  function Redirected(s: State, t: nat): State
    requires t < |s.stacks| && s.stacks[t] != []
    requires var x := s.stacks[t][|s.stacks[t]| - 1].spd; x in s.current && s.current[x] < |s.comps|
  {
    var n := |s.stacks[t]| - 1;
    var x := s.stacks[t][n].spd;
    var c := s.current[x];
    s.(comps := s.comps[c := s.comps[c].(ref := s.comps[c].ref + 1)],
       stacks := s.stacks[t := s.stacks[t][n := Frame(c, x)]])
  }

  lemma RedirectRef(s: State, r: State, t: nat, f: Frame)
    requires RefOk(s, multiset{}) && t < |s.stacks| && s.stacks[t] != [] && f.comp < |s.comps|
    requires r.stacks == s.stacks[t := s.stacks[t][|s.stacks[t]| - 1 := f]]
    requires r.comps == s.comps[f.comp := s.comps[f.comp].(ref := s.comps[f.comp].ref + 1)]
    ensures RefOk(r, multiset{s.stacks[t][|s.stacks[t]| - 1].comp})
  {
    var n := |s.stacks[t]| - 1;
    forall d: nat | d < |s.comps|
      ensures Frames(r.stacks, d)
              == Frames(s.stacks, d) - (if d == s.stacks[t][n].comp then 1 else 0) + if d == f.comp then 1 else 0
    {
      FramesUpdate(s.stacks, t, r.stacks[t], d);
      InStackReplace(s.stacks[t], n, f, d);
    }
  }

  lemma RedirectKeeps(s: State, t: nat)
    requires Within(s, multiset{}, {}, s.pt) && t < |s.stacks| && s.stacks[t] != []
    ensures var f := s.stacks[t][|s.stacks[t]| - 1];
            && f.comp < |s.comps| && f.spd in s.current && s.current[f.spd] < |s.comps|
            && Within(Redirected(s, t), multiset{f.comp}, {}, s.pt)
  {
    hide FreeOk;
    hide TreeOk;
    hide TableOk;
    hide RefOk;
    var n := |s.stacks[t]| - 1;
    var f := s.stacks[t][n];
    assert FrameInView(s, f, s.pt);
    var c := s.current[f.spd];
    var r := Redirected(s, t);
    assert ListsMembers(s, c) && MapsMembers(s, c, {});
    RefDiffersFree(s, r, c);
    RefDiffersTree(s, r, c);
    RefDiffersTable(s, r, c);
    RefDiffersMember(s, r, c, {});
    RedirectRef(s, r, t, Frame(c, f.spd));
    assert f.spd in Elems(s.comps[c].members);
    forall u, i | 0 <= u < |r.stacks| && 0 <= i < |r.stacks[u]|
      ensures FrameInView(r, r.stacks[u][i], s.pt)
    {
      assert FrameInView(s, s.stacks[u][i], s.pt);
    }
  }

  // ----- spd_alloc_mpd_desc

  /** The page table the next allocation gets: the head of the pool, or a page that was never a table. */
  function NextTable(s: State, page: Option<Table>): Option<Table> {
    if s.pool != [] then Some(s.pool[0]) else page
  }

  predicate CanAlloc(s: State, page: Option<Table>) {
    s.freelist != [] && NextTable(s, page).Some?
  }

  function Allocated(s: State, page: Option<Table>): State
    requires CanAlloc(s, page) && s.freelist[0] < |s.comps|
  {
    var c, p := s.freelist[0], NextTable(s, page).value;
    s.(comps := s.comps[c := Composite(1, false, false, false, p, [], None, [])],
       freelist := s.freelist[1..],
       pool := if s.pool != [] then s.pool[1..] else s.pool,
       pt := s.pt[p := {}])
  }

  lemma AllocTables(s: State, page: Option<Table>)
    requires FreeOk(s) && TreeOk(s) && TableOk(s) && CanAlloc(s, page) && (page.Some? ==> page.value !in s.pt)
    ensures s.freelist[0] < |s.comps| && s.comps[s.freelist[0]].free
    ensures forall d: nat :: d < |s.comps| && Owner(s.comps[d]) ==> s.comps[d].pgTbl != NextTable(s, page).value
    ensures forall d: nat :: d < |s.comps| && !s.comps[d].free ==> s.comps[d].pgTbl != NextTable(s, page).value
    ensures TableOk(Allocated(s, page))
  {
    hide Owned;
    assert s.freelist[0] in s.freelist;
    FirstIn(s.pool);
    var r := Allocated(s, page);
    forall p | p in r.pt && p !in r.pool
      ensures Owned(r, p)
    {
      if p == NextTable(s, page).value {
        NewOwner(r, s.freelist[0]);
      } else {
        assert s.pool != [] ==> s.pool == [s.pool[0]] + s.pool[1..];
        StillOwned(s, r, p, s.freelist[0]);
      }
    }
  }

  lemma NewOwner(s: State, c: Cid)
    requires c < |s.comps| && Owner(s.comps[c])
    ensures Owned(s, s.comps[c].pgTbl)
  {
  }

  lemma AllocFreeTree(s: State, page: Option<Table>)
    requires FreeOk(s) && TreeOk(s) && CanAlloc(s, page) && s.freelist[0] < |s.comps| && s.comps[s.freelist[0]].free
    ensures FreeOk(Allocated(s, page)) && TreeOk(Allocated(s, page))
  {
    var r := Allocated(s, page);
    assert s.freelist == [s.freelist[0]] + s.freelist[1..];
    assert forall d: nat :: d in s.freelist <==> d == s.freelist[0] || d in r.freelist;
    forall d: nat | d < |r.comps|
      ensures ListsSubordinates(r, d)
    {
      assert ListsSubordinates(s, d);
    }
  }

  lemma AllocMember(s: State, page: Option<Table>, stale: set<Cid>)
    requires FreeOk(s) && MemberOk(s, stale) && CanAlloc(s, page)
    requires s.freelist[0] < |s.comps| && s.comps[s.freelist[0]].free
    requires forall d: nat :: d < |s.comps| && !s.comps[d].free ==> s.comps[d].pgTbl != NextTable(s, page).value
    ensures MemberOk(Allocated(s, page), stale)
  {
    var r := Allocated(s, page);
    assert Elems<Spd>([]) == {};
    forall d: nat | d < |r.comps|
      ensures ListsMembers(r, d) && (Active(r.comps[d]) ==> MapsMembers(r, d, stale))
    {
      assert ListsMembers(s, d);
      assert Active(s.comps[d]) ==> MapsMembers(s, d, stale);
    }
  }

  lemma AllocKeeps(s: State, page: Option<Table>, stale: set<Cid>)
    requires Within(s, multiset{}, stale, s.pt) && CanAlloc(s, page) && (page.Some? ==> page.value !in s.pt)
    ensures s.freelist[0] < |s.comps| && s.comps[s.freelist[0]].free
    ensures Within(Allocated(s, page), multiset{}, stale, Allocated(s, page).pt)
  {
    AllocTables(s, page);
    AllocFreeTree(s, page);
    AllocMember(s, page, stale);
    AllocRefs(s, page);
    AllocFrames(s, page);
    hide Allocated;
    hide FreeOk;
    hide RefOk;
    hide TreeOk;
    hide TableOk;
    hide MemberOk;
    hide FrameOk;
  }

  lemma AllocRefs(s: State, page: Option<Table>)
    requires FreeOk(s) && RefOk(s, multiset{}) && CanAlloc(s, page)
    requires s.freelist[0] < |s.comps| && s.comps[s.freelist[0]].free
    ensures RefOk(Allocated(s, page), multiset{})
  {
  }

  lemma AllocFrames(s: State, page: Option<Table>)
    requires FrameOk(s, s.pt) && CanAlloc(s, page)
    requires s.freelist[0] < |s.comps| && s.comps[s.freelist[0]].free
    requires forall d: nat :: d < |s.comps| && !s.comps[d].free ==> s.comps[d].pgTbl != NextTable(s, page).value
    ensures FrameOk(Allocated(s, page), Allocated(s, page).pt)
  {
    var r := Allocated(s, page);
    forall t, i | 0 <= t < |r.stacks| && 0 <= i < |r.stacks[t]|
      ensures FrameInView(r, r.stacks[t][i], r.pt)
    {
      assert FrameInView(s, s.stacks[t][i], s.pt);
    }
  }

  // ----- spd_composite_move_member

  /** Spd x leaves its composite (with its mappings, if `unmap`) and becomes the first member of dest. */
  function Moved(s: State, x: Spd, dest: Cid, unmap: bool): State
    requires x in s.current && s.current[x] < |s.comps| && dest < |s.comps|
    requires s.comps[s.current[x]].pgTbl in s.pt && s.comps[dest].pgTbl in s.pt
  {
    var c := s.current[x];
    var comps := s.comps[c := s.comps[c].(members := Without(s.comps[c].members, x))];
    var pt := if unmap then s.pt[s.comps[c].pgTbl := s.pt[s.comps[c].pgTbl] - {x}] else s.pt;
    s.(comps := comps[dest := comps[dest].(members := [x] + comps[dest].members)],
       current := s.current[x := dest],
       pt := pt[comps[dest].pgTbl := pt[comps[dest].pgTbl] + {x}])
  }

  ghost predicate CanMove(s: State, x: Spd, dest: Cid) {
    && x in s.current && s.current[x] < |s.comps| && dest < |s.comps| && s.current[x] != dest
    && s.comps[s.current[x]].pgTbl in s.pt && s.comps[dest].pgTbl in s.pt
    && Active(s.comps[s.current[x]]) && Active(s.comps[dest])
  }

  lemma MoveIsPossible(s: State, x: Spd, dest: Cid, stale: set<Cid>)
    requires MemberOk(s, stale) && x in s.current && dest < |s.comps| && Active(s.comps[dest]) && s.current[x] != dest
    requires dest !in stale
    ensures CanMove(s, x, dest)
    // neither "not resident in any other" nor "mappings do not already exist" can fail
    ensures x !in s.pt[s.comps[dest].pgTbl] && x in s.pt[s.comps[s.current[x]].pgTbl]
  {
    var c := s.current[x];
    assert MapsMembers(s, c, stale) && MapsMembers(s, dest, stale);
    assert ListsMembers(s, c) && ListsMembers(s, dest);
    assert x in Elems(s.comps[c].members);
    assert forall y :: y in Elems(s.comps[dest].members) ==> y in s.comps[dest].members;
  }

  lemma MoveLists(s: State, x: Spd, dest: Cid, unmap: bool, stale: set<Cid>, d: nat)
    requires MemberOk(s, stale) && CanMove(s, x, dest) && d < |s.comps|
    ensures ListsMembers(Moved(s, x, dest, unmap), d)
  {
    var c := s.current[x];
    assert ListsMembers(s, c) && ListsMembers(s, dest) && ListsMembers(s, d);
    WithoutElems(s.comps[c].members, x);
    assert forall y :: y in Without(s.comps[c].members, x) <==> y in Elems(Without(s.comps[c].members, x));
    assert forall y :: y in s.comps[c].members <==> y in Elems(s.comps[c].members);
  }

  lemma MoveMaps(s: State, x: Spd, dest: Cid, unmap: bool, stale: set<Cid>, d: nat)
    requires MemberOk(s, stale) && CanMove(s, x, dest) && dest !in stale && d < |s.comps| && Active(s.comps[d])
    requires s.comps[s.current[x]].pgTbl != s.comps[dest].pgTbl
    requires d != dest ==> s.comps[d].pgTbl != s.comps[dest].pgTbl
    requires d != s.current[x] ==> s.comps[d].pgTbl != s.comps[s.current[x]].pgTbl
    ensures MapsMembers(Moved(s, x, dest, unmap), d, if unmap then stale else stale + {s.current[x]})
  {
    var c := s.current[x];
    assert ListsMembers(s, c) && ListsMembers(s, dest) && MapsMembers(s, d, stale);
    WithoutElems(s.comps[c].members, x);
    assert Elems([x] + s.comps[dest].members) == Elems(s.comps[dest].members) + {x};
  }

  lemma MoveMember(s: State, x: Spd, dest: Cid, unmap: bool, stale: set<Cid>)
    requires MemberOk(s, stale) && CanMove(s, x, dest) && dest !in stale
    requires s.comps[s.current[x]].pgTbl != s.comps[dest].pgTbl
    requires forall d: nat :: d < |s.comps| && Active(s.comps[d]) && d != dest ==>
      s.comps[d].pgTbl != s.comps[dest].pgTbl
    requires forall d: nat :: d < |s.comps| && Active(s.comps[d]) && d != s.current[x] ==>
      s.comps[d].pgTbl != s.comps[s.current[x]].pgTbl
    ensures MemberOk(Moved(s, x, dest, unmap), if unmap then stale else stale + {s.current[x]})
  {
    hide ListsMembers;
    hide MapsMembers;
    var c := s.current[x];
    var r := Moved(s, x, dest, unmap);
    forall d: nat | d < |r.comps|
      ensures ListsMembers(r, d)
      ensures Active(r.comps[d]) ==> MapsMembers(r, d, if unmap then stale else stale + {c})
    {
      MoveLists(s, x, dest, unmap, stale, d);
      if Active(s.comps[d]) {
        MoveMaps(s, x, dest, unmap, stale, d);
      }
    }
  }

  /** Only the members of composites differ. */
  ghost predicate MembersDiffer(s: State, r: State) {
    && |r.comps| == |s.comps| && r.freelist == s.freelist && r.pool == s.pool && r.stacks == s.stacks
    && r.pt.Keys == s.pt.Keys && r.current.Keys == s.current.Keys
    && forall d: nat :: d < |s.comps| ==> r.comps[d] == s.comps[d].(members := r.comps[d].members)
  }

  lemma MembersDifferTree(s: State, r: State)
    requires MembersDiffer(s, r) && TreeOk(s)
    ensures TreeOk(r)
  {
    forall d: nat | d < |r.comps|
      ensures ListsSubordinates(r, d)
    {
      assert ListsSubordinates(s, d);
    }
  }

  lemma MembersDifferRest(s: State, r: State, extra: multiset<Cid>)
    requires MembersDiffer(s, r) && RefOk(s, extra) && TableOk(s)
    ensures RefOk(r, extra) && TableOk(r)
  {
    hide TableOk;
    SameOwners(s, r);
  }

  lemma MembersDifferFrame(s: State, r: State, view: map<Table, set<Spd>>)
    requires MembersDiffer(s, r) && FrameOk(s, view)
    ensures FrameOk(r, view)
  {
    forall t, i | 0 <= t < |r.stacks| && 0 <= i < |r.stacks[t]|
      ensures FrameInView(r, r.stacks[t][i], view)
    {
      assert FrameInView(s, s.stacks[t][i], view);
    }
  }

  lemma MoveRest(s: State, x: Spd, dest: Cid, unmap: bool, extra: multiset<Cid>, view: map<Table, set<Spd>>)
    requires FreeOk(s) && RefOk(s, extra) && TreeOk(s) && TableOk(s) && FrameOk(s, view) && CanMove(s, x, dest)
    ensures var r := Moved(s, x, dest, unmap);
            FreeOk(r) && RefOk(r, extra) && TreeOk(r) && TableOk(r) && FrameOk(r, view)
  {
    var r := Moved(s, x, dest, unmap);
    MoveDiffers(s, x, dest, unmap);
    hide MembersDiffer;
    hide FreeOk;
    hide RefOk;
    hide TableOk;
    hide TreeOk;
    hide FrameOk;
    MembersDifferTree(s, r);
    MembersDifferRest(s, r, extra);
    MembersDifferFrame(s, r, view);
  }

  lemma MoveDiffers(s: State, x: Spd, dest: Cid, unmap: bool)
    requires FreeOk(s) && CanMove(s, x, dest)
    ensures MembersDiffer(s, Moved(s, x, dest, unmap)) && FreeOk(Moved(s, x, dest, unmap))
  {
  }

  lemma MoveKeeps(s: State, x: Spd, dest: Cid, unmap: bool, extra: multiset<Cid>, stale: set<Cid>,
                  view: map<Table, set<Spd>>)
    requires Within(s, extra, stale, view) && x in s.current && dest < |s.comps| && Active(s.comps[dest])
    requires s.current[x] != dest && dest !in stale
    ensures CanMove(s, x, dest)
    ensures Within(Moved(s, x, dest, unmap), extra, if unmap then stale else stale + {s.current[x]}, view)
  {
    MoveIsPossible(s, x, dest, stale);
    ActiveOwns(s);
    MoveMember(s, x, dest, unmap, stale);
    MoveRest(s, x, dest, unmap, extra, view);
  }

  lemma ActiveOwns(s: State)
    requires TreeOk(s) && TableOk(s)
    ensures forall c: nat, d: nat ::
              c < |s.comps| && d < |s.comps| && Active(s.comps[c]) && Active(s.comps[d]) && c != d ==>
                s.comps[c].pgTbl != s.comps[d].pgTbl
  {
    assert forall c: nat :: c < |s.comps| && Active(s.comps[c]) ==> Owner(s.comps[c]);
  }

  // ----- an emptied composite gives up its active reference

  function Deprecated(s: State, c: Cid): State
    requires c < |s.comps|
  {
    s.(comps := s.comps[c := s.comps[c].(deprecated := true)])
  }

  function MarkedSubordinate(s: State, c: Cid): State
    requires c < |s.comps|
  {
    s.(comps := s.comps[c := s.comps[c].(subordinate := true)])
  }

  lemma RetireMember(s: State, c: Cid, r: State, stale: set<Cid>)
    requires MemberOk(s, stale) && c < |s.comps| && s.comps[c].members == []
    requires r == Deprecated(s, c) || r == MarkedSubordinate(s, c)
    ensures MemberOk(r, stale - {c})
  {
    forall d: nat | d < |r.comps|
      ensures ListsMembers(r, d)
      ensures Active(r.comps[d]) ==> MapsMembers(r, d, stale - {c})
    {
      assert ListsMembers(s, d);
      assert Active(s.comps[d]) ==> MapsMembers(s, d, stale);
    }
    assert ListsMembers(s, c);
    forall x | x in r.current
      ensures r.current[x] != c
    {
      assert x !in s.comps[c].members;
    }
  }

  lemma RetireTree(s: State, c: Cid, r: State)
    requires TreeOk(s) && c < |s.comps| && Active(s.comps[c])
    requires r == Deprecated(s, c) || r == MarkedSubordinate(s, c)
    ensures TreeOk(r)
  {
    forall d: nat | d < |r.comps|
      ensures ListsSubordinates(r, d)
    {
      assert ListsSubordinates(s, d);
    }
  }

  lemma RetireKeeps(s: State, c: Cid, r: State, stale: set<Cid>, view: map<Table, set<Spd>>)
    requires Within(s, multiset{}, stale, view) && c < |s.comps| && Active(s.comps[c]) && s.comps[c].members == []
    requires r == Deprecated(s, c) || r == MarkedSubordinate(s, c)
    ensures Within(r, multiset{c}, stale - {c}, view)
  {
    RetireMember(s, c, r, stale);
    RetireTree(s, c, r);
    RetireFrames(s, c, r, view);
    RetireRest(s, c, r);
    RetireTable(s, c, r);
  }

  lemma RetireRest(s: State, c: Cid, r: State)
    requires FreeOk(s) && RefOk(s, multiset{}) && c < |s.comps| && Active(s.comps[c])
    requires r == Deprecated(s, c) || r == MarkedSubordinate(s, c)
    ensures FreeOk(r) && RefOk(r, multiset{c})
  {
  }

  lemma RetireTable(s: State, c: Cid, r: State)
    requires TableOk(s) && c < |s.comps| && Active(s.comps[c])
    requires r == Deprecated(s, c) || r == MarkedSubordinate(s, c)
    ensures TableOk(r)
  {
    assert forall d: nat :: d < |s.comps| ==>
      Owner(r.comps[d]) == Owner(s.comps[d]) && r.comps[d].pgTbl == s.comps[d].pgTbl;
    SameOwners(s, r);
  }

  lemma RetireFrames(s: State, c: Cid, r: State, view: map<Table, set<Spd>>)
    requires FrameOk(s, view) && c < |s.comps| && (r == Deprecated(s, c) || r == MarkedSubordinate(s, c))
    ensures FrameOk(r, view)
  {
    forall t, i | 0 <= t < |r.stacks| && 0 <= i < |r.stacks[t]|
      ensures FrameInView(r, r.stacks[t][i], view)
    {
      assert FrameInView(s, s.stacks[t][i], view);
    }
  }

  // ----- spd_mpd_subordinate

  /** The first k composites of the list of `slave` (itself first) use the page table of `master` and
      refer to it; the references they held on the slave are gone. */
  function SubordinateFirst(s: State, slave: Cid, master: Cid, k: nat): State
    requires slave < |s.comps| && master < |s.comps|
  {
    var list := [slave] + s.comps[slave].subs;
    s.(comps := seq(|s.comps|, (d: nat) requires d < |s.comps| =>
         var was := s.comps[d];
         var moved := if d in list[..if k <= |list| then k else |list|]
                      then was.(master := Some(master), pgTbl := s.comps[master].pgTbl) else was;
         if d == master then moved.(ref := was.ref + k)
         else if d == slave && k > 0 then moved.(ref := was.ref - (k - 1))
         else moved))
  }

  /** All of the slave's list has moved over and been appended to the master's list. */
  function Subordinated(s: State, slave: Cid, master: Cid): State
    requires slave < |s.comps| && master < |s.comps| && slave != master
  {
    var list := [slave] + s.comps[slave].subs;
    var r := SubordinateFirst(s, slave, master, |list|);
    r.(comps := r.comps[slave := r.comps[slave].(subs := [])]
                       [master := r.comps[master].(subs := s.comps[master].subs + list)])
  }

  /** Two distinct owners; the slave is marked, empty and still holds its active reference. */
  ghost predicate CanSubordinate(s: State, slave: Cid, master: Cid) {
    && slave < |s.comps| && master < |s.comps| && slave != master
    && Owner(s.comps[slave]) && Owner(s.comps[master]) && Active(s.comps[master])
    && s.comps[slave].subordinate && !s.comps[slave].deprecated && s.comps[slave].members == []
  }

  /** What becomes of composite d when the slave is subordinated. */
  function AfterSubordination(s: State, slave: Cid, master: Cid, d: Cid): Composite
    requires slave < |s.comps| && master < |s.comps| && d < |s.comps|
  {
    var was, shared := s.comps[d], s.comps[master].pgTbl;
    if d == master then
      was.(ref := was.ref + 1 + |s.comps[slave].subs|, subs := was.subs + [slave] + s.comps[slave].subs)
    else if d == slave then
      was.(ref := was.ref - |s.comps[slave].subs|, subs := [], master := Some(master), pgTbl := shared)
    else if was.master == Some(slave) then
      was.(master := Some(master), pgTbl := shared)
    else was
  }

  lemma SubordinatedComps(s: State, slave: Cid, master: Cid)
    requires CanSubordinate(s, slave, master) && TreeOk(s)
    ensures var r := Subordinated(s, slave, master);
            && r == s.(comps := r.comps) && |r.comps| == |s.comps|
            && forall d: nat :: d < |s.comps| ==> r.comps[d] == AfterSubordination(s, slave, master, d)
  {
    assert ListsSubordinates(s, slave);
    var list := [slave] + s.comps[slave].subs;
    assert list[..|list|] == list;
    assert s.comps[master].subs + list == s.comps[master].subs + [slave] + s.comps[slave].subs;
  }

  lemma SubordinateTree(s: State, slave: Cid, master: Cid, r: State)
    requires CanSubordinate(s, slave, master) && TreeOk(s) && |r.comps| == |s.comps|
    requires forall d: nat :: d < |s.comps| ==> r.comps[d] == AfterSubordination(s, slave, master, d)
    ensures TreeOk(r)
  {
    assert ListsSubordinates(s, slave) && ListsSubordinates(s, master);
    DistinctConcat(s.comps[master].subs, [slave]);
    DistinctConcat(s.comps[master].subs + [slave], s.comps[slave].subs);
    forall d: nat | d < |r.comps|
      ensures ListsSubordinates(r, d)
    {
      assert ListsSubordinates(s, d);
    }
  }

  lemma SubordinateTable(s: State, slave: Cid, master: Cid, r: State)
    requires CanSubordinate(s, slave, master) && TreeOk(s) && TableOk(s) && |r.comps| == |s.comps|
    requires forall d: nat :: d < |s.comps| ==> r.comps[d] == AfterSubordination(s, slave, master, d)
    requires r.pt == s.pt && r.pool == [s.comps[slave].pgTbl] + s.pool
    ensures TableOk(r)
  {
    assert forall d: nat :: d < |s.comps| ==> (Owner(r.comps[d]) <==> Owner(s.comps[d]) && d != slave);
    assert forall d: nat :: d < |s.comps| && Owner(r.comps[d]) ==> r.comps[d].pgTbl == s.comps[d].pgTbl;
    LosesOwner(s, r, slave);
  }

  /** One owner less, whose table goes to the pool. */
  lemma LosesOwner(s: State, r: State, c: Cid)
    requires TableOk(s) && c < |s.comps| && Owner(s.comps[c]) && |r.comps| == |s.comps|
    requires r.pt == s.pt && r.pool == [s.comps[c].pgTbl] + s.pool
    requires forall d: nat :: d < |s.comps| ==> (Owner(r.comps[d]) <==> Owner(s.comps[d]) && d != c)
    requires forall d: nat :: d < |s.comps| && Owner(r.comps[d]) ==> r.comps[d].pgTbl == s.comps[d].pgTbl
    ensures TableOk(r)
  {
    hide Owned;
    forall p | p in r.pt && p !in r.pool
      ensures Owned(r, p)
    {
      StillOwned(s, r, p, c);
    }
  }

  lemma SubordinateMember(s: State, slave: Cid, master: Cid, r: State, stale: set<Cid>)
    requires CanSubordinate(s, slave, master) && TreeOk(s) && MemberOk(s, stale) && |r.comps| == |s.comps|
    requires forall d: nat :: d < |s.comps| ==> r.comps[d] == AfterSubordination(s, slave, master, d)
    requires r.pt == s.pt && r.current == s.current
    ensures MemberOk(r, stale)
  {
    assert forall d: nat :: d < |s.comps| ==>
      Active(r.comps[d]) == Active(s.comps[d]) && r.comps[d].members == s.comps[d].members;
    assert forall d: nat :: d < |s.comps| && Active(s.comps[d]) ==> r.comps[d].pgTbl == s.comps[d].pgTbl;
    forall d: nat | d < |r.comps|
      ensures ListsMembers(r, d) && (Active(r.comps[d]) ==> MapsMembers(r, d, stale))
    {
      assert ListsMembers(s, d);
      assert Active(s.comps[d]) ==> MapsMembers(s, d, stale);
    }
  }

  /** Frames of the slave's family are judged by what the master's table will hold. */
  lemma SubordinateFrame(s: State, slave: Cid, master: Cid, r: State, view: map<Table, set<Spd>>,
                         view': map<Table, set<Spd>>)
    requires CanSubordinate(s, slave, master) && TreeOk(s) && TableOk(s) && FrameOk(s, view) && |r.comps| == |s.comps|
    requires forall d: nat :: d < |s.comps| ==> r.comps[d] == AfterSubordination(s, slave, master, d)
    requires r.stacks == s.stacks && r.current == s.current && view'.Keys == view.Keys
    requires var ps, pm := s.comps[slave].pgTbl, s.comps[master].pgTbl;
             && ps in view && pm in view && view[ps] <= view'[pm]
             && forall p :: p in view && p != ps ==> view[p] <= view'[p]
    ensures FrameOk(r, view')
  {
    forall t, i | 0 <= t < |r.stacks| && 0 <= i < |r.stacks[t]|
      ensures FrameInView(r, r.stacks[t][i], view')
    {
      var c := s.stacks[t][i].comp;
      assert FrameInView(s, s.stacks[t][i], view);
      if s.comps[c].pgTbl == s.comps[slave].pgTbl {
        assert c == slave || s.comps[c].master == Some(slave);
      }
    }
  }

  lemma SubordinateKeeps(s: State, slave: Cid, master: Cid, extra: multiset<Cid>, stale: set<Cid>,
                         view: map<Table, set<Spd>>, view': map<Table, set<Spd>>, r: State)
    requires Within(s, extra, stale, view) && CanSubordinate(s, slave, master)
    requires slave in extra && view'.Keys == view.Keys
    requires var ps, pm := s.comps[slave].pgTbl, s.comps[master].pgTbl;
             && ps in view && pm in view && view[ps] <= view'[pm]
             && forall p :: p in view && p != ps ==> view[p] <= view'[p]
    requires r == Subordinated(s, slave, master).(pool := [s.comps[slave].pgTbl] + s.pool)
    ensures Within(r, extra, stale, view')
  {
    hide *;
    Parts(s, extra, stale, view);
    SubordinatedComps(s, slave, master);
    SubordinateTree(s, slave, master, r);
    SubordinateTable(s, slave, master, r);
    SubordinateMember(s, slave, master, r, stale);
    SubordinateFrame(s, slave, master, r, view, view');
    SubordinateFree(s, slave, master, r);
    SubordinateRef(s, slave, master, r, extra);
    Whole(r, extra, stale, view');
  }

  lemma SubordinateFree(s: State, slave: Cid, master: Cid, r: State)
    requires CanSubordinate(s, slave, master) && FreeOk(s) && |r.comps| == |s.comps|
    requires forall d: nat :: d < |s.comps| ==> r.comps[d] == AfterSubordination(s, slave, master, d)
    requires r.freelist == s.freelist
    ensures FreeOk(r)
  {
  }

  lemma SubordinateRef(s: State, slave: Cid, master: Cid, r: State, extra: multiset<Cid>)
    requires CanSubordinate(s, slave, master) && RefOk(s, extra) && slave in extra && |r.comps| == |s.comps|
    requires forall d: nat :: d < |s.comps| ==> r.comps[d] == AfterSubordination(s, slave, master, d)
    requires r.stacks == s.stacks
    ensures RefOk(r, extra)
  {
    assert forall d: nat :: d < |s.comps| ==> Active(r.comps[d]) == Active(s.comps[d]);
  }

  // ----- spd_composite_add_member for an spd that is in no composite yet

  function Joined(s: State, x: Spd, dest: Cid): State
    requires dest < |s.comps| && s.comps[dest].pgTbl in s.pt
  {
    var k := s.comps[dest];
    s.(comps := s.comps[dest := k.(members := [x] + k.members)], current := s.current[x := dest],
       pt := s.pt[k.pgTbl := s.pt[k.pgTbl] + {x}])
  }

  lemma JoinMember(s: State, x: Spd, dest: Cid)
    requires MemberOk(s, {}) && x !in s.current && dest < |s.comps| && Active(s.comps[dest])
    requires forall d: nat :: d < |s.comps| && Active(s.comps[d]) && d != dest ==>
      s.comps[d].pgTbl != s.comps[dest].pgTbl
    ensures s.comps[dest].pgTbl in s.pt && MemberOk(Joined(s, x, dest), {})
  {
    assert ListsMembers(s, dest) && MapsMembers(s, dest, {});
    var r := Joined(s, x, dest);
    assert Elems([x] + s.comps[dest].members) == Elems(s.comps[dest].members) + {x};
    forall d: nat | d < |r.comps|
      ensures ListsMembers(r, d) && (Active(r.comps[d]) ==> MapsMembers(r, d, {}))
    {
      assert ListsMembers(s, d);
      assert Active(s.comps[d]) ==> MapsMembers(s, d, {});
    }
  }

  lemma JoinTree(s: State, x: Spd, dest: Cid)
    requires FreeOk(s) && RefOk(s, multiset{}) && TreeOk(s) && dest < |s.comps|
    requires s.comps[dest].pgTbl in s.pt && Active(s.comps[dest])
    ensures var r := Joined(s, x, dest); FreeOk(r) && RefOk(r, multiset{}) && TreeOk(r)
  {
    var r := Joined(s, x, dest);
    forall d: nat | d < |r.comps|
      ensures ListsSubordinates(r, d)
    {
      assert ListsSubordinates(s, d);
    }
  }

  lemma JoinRest(s: State, x: Spd, dest: Cid)
    requires TableOk(s) && FrameOk(s, s.pt)
    requires dest < |s.comps| && Active(s.comps[dest]) && s.comps[dest].pgTbl in s.pt
    ensures var r := Joined(s, x, dest); TableOk(r) && FrameOk(r, r.pt)
  {
    var r := Joined(s, x, dest);
    SameOwners(s, r);
    forall t, i | 0 <= t < |r.stacks| && 0 <= i < |r.stacks[t]|
      ensures FrameInView(r, r.stacks[t][i], r.pt)
    {
      assert FrameInView(s, s.stacks[t][i], s.pt);
    }
  }

  lemma JoinKeeps(s: State, x: Spd, dest: Cid)
    requires Within(s, multiset{}, {}, s.pt) && x !in s.current && dest < |s.comps| && Active(s.comps[dest])
    ensures s.comps[dest].pgTbl in s.pt
    ensures Within(Joined(s, x, dest), multiset{}, {}, Joined(s, x, dest).pt)
  {
    ActiveOwns(s);
    JoinMember(s, x, dest);
    JoinTree(s, x, dest);
    JoinRest(s, x, dest);
  }

  // ----- changing the view by which frames are judged

  lemma WiderView(s: State, extra: multiset<Cid>, stale: set<Cid>, view: map<Table, set<Spd>>,
                  view': map<Table, set<Spd>>)
    requires Within(s, extra, stale, view) && view.Keys <= view'.Keys && forall p :: p in view ==> view[p] <= view'[p]
    ensures Within(s, extra, stale, view')
  {
    forall t, i | 0 <= t < |s.stacks| && 0 <= i < |s.stacks[t]|
      ensures FrameInView(s, s.stacks[t][i], view')
    {
      assert FrameInView(s, s.stacks[t][i], view);
    }
  }

  /** No frame uses the table of an owner whose only reference is the active (or one pending) one. */
  lemma Unused(s: State, c: Cid, extra: multiset<Cid>, view: map<Table, set<Spd>>, t: nat, i: nat)
    requires RefOk(s, extra) && TreeOk(s) && TableOk(s) && FrameOk(s, view) && c < |s.comps| && Owner(s.comps[c])
    requires s.comps[c].ref == 1 && (Active(s.comps[c]) || c in extra) && t < |s.stacks| && i < |s.stacks[t]|
    ensures s.stacks[t][i].comp < |s.comps| && s.comps[s.stacks[t][i].comp].pgTbl != s.comps[c].pgTbl
  {
    var d := s.stacks[t][i].comp;
    assert FrameInView(s, s.stacks[t][i], view);
    NoFrame(s.stacks, c, t, i);
    assert ListsSubordinates(s, c);
  }

  lemma UnusedView(s: State, c: Cid, extra: multiset<Cid>, stale: set<Cid>, view: map<Table, set<Spd>>,
                   view': map<Table, set<Spd>>)
    requires Within(s, extra, stale, view) && c < |s.comps| && Owner(s.comps[c])
    requires s.comps[c].ref == 1 && (Active(s.comps[c]) || c in extra)
    requires view.Keys <= view'.Keys && forall p :: p in view && p != s.comps[c].pgTbl ==> view[p] <= view'[p]
    ensures Within(s, extra, stale, view')
  {
    forall t, i | 0 <= t < |s.stacks| && 0 <= i < |s.stacks[t]|
      ensures FrameInView(s, s.stacks[t][i], view')
    {
      assert FrameInView(s, s.stacks[t][i], view);
      Unused(s, c, extra, view, t, i);
    }
  }

  /** Every marked composite has a master. */
  ghost predicate Mastered(s: State) {
    forall c: nat :: c < |s.comps| && s.comps[c].subordinate ==> s.comps[c].master.Some?
  }

  /** Only c may be marked without having a master. */
  ghost predicate MasteredBut(s: State, c: Cid) {
    forall d: nat :: d < |s.comps| && s.comps[d].subordinate ==> s.comps[d].master.Some? || d == c
  }

  lemma ReleaseMastered(s: State, c: Cid)
    requires c < |s.comps|
    requires s.comps[c].master.Some? ==>
      var m := s.comps[c].master.value; m < |s.comps| && m != c && s.comps[m].master.None?
    requires Mastered(s) || (MasteredBut(s, c) && s.comps[c].ref == 1)
    requires FreeOk(Released(s, c))
    ensures Mastered(Released(s, c))
  {
    var r := Released(s, c);
    forall d: nat | d < |r.comps| && r.comps[d].subordinate
      ensures r.comps[d].master.Some?
    {
      ReleaseKeepsMasters(s, c, d);
    }
  }
}
