/** The isolation levels of invocation capabilities while spds move between composite spds
    (src/kernel/spd.c): invocations inside a composite use symmetric trust (ST), all others symmetric
    distrust (SDT). */
module Isolation {
  import opened Seqs

  datatype Level = INV | SDT | AST | ST

  datatype Stubs = Stubs(sdServ: nat, sdCli: nat, atServ: nat, atCli: nat, stServ: nat)

  /** A kernel capability with the user-level entry that belongs to it. */
  datatype Cap = Cap(owner: nat, dest: Option<nat>, il: Level, entry: nat, stubs: Stubs, user: UserCap)

  datatype UserCap = UserCap(entry: nat, count: nat, capNo: nat)

  // ----- what a capability should be

  /** The stubs that client and server use at a level. */
  ghost predicate EntriesAgree(cap: Cap, i: nat) {
    && cap.user.capNo == i * 0x100000
    && match cap.il
       case SDT => cap.entry == cap.stubs.sdServ && cap.user.entry == cap.stubs.sdCli
       case AST => cap.entry == cap.stubs.atServ && cap.user.entry == cap.stubs.atCli
       case ST => cap.entry == cap.stubs.stServ && cap.user.entry == cap.stubs.stServ
       case INV => false
  }

  /** Spds s and d are members of the same composite. */
  ghost predicate Together(composite: seq<Option<nat>>, s: nat, d: nat) {
    s < |composite| && d < |composite| && composite[s].Some? && composite[s] == composite[d]
  }

  /** Capability i is one of spd s, and not the return capability. */
  ghost predicate Calls(base: seq<nat>, range: seq<nat>, s: nat, i: nat) {
    s < |base| && s < |range| && base[s] + 1 <= i < base[s] + range[s]
  }

  /** The capabilities of spd s towards other spds. */
  ghost predicate CallsOut(caps: seq<Cap>, base: seq<nat>, range: seq<nat>, s: nat, i: nat) {
    Calls(base, range, s, i) && i < |caps| && caps[i].dest.Some? && caps[i].dest.value != s
  }

  ghost predicate TablesOk(caps: seq<Cap>, base: seq<nat>, range: seq<nat>) {
    && |base| == |range|
    && (forall s: nat, i: nat :: Calls(base, range, s, i) ==>
          i < |caps| && caps[i].owner == s && (caps[i].dest.Some? ==> caps[i].dest.value < |base|))
  }

  /** Every capability between distinct spds is ST if they are in the same composite and SDT otherwise. */
  ghost predicate LevelsOk(caps: seq<Cap>, base: seq<nat>, range: seq<nat>, composite: seq<Option<nat>>) {
    forall s: nat, i: nat :: CallsOut(caps, base, range, s, i) ==>
      && caps[i].il == (if Together(composite, s, caps[i].dest.value) then ST else SDT)
      && EntriesAgree(caps[i], i)
  }

  ghost predicate ListsMembers(composite: seq<Option<nat>>, m: seq<nat>, c: nat) {
    Distinct(m) && forall x: nat :: x in m <==> x < |composite| && composite[x] == Some(c)
  }

  ghost predicate MembersOk(composite: seq<Option<nat>>, members: map<nat, seq<nat>>) {
    && (forall c :: c in members ==> ListsMembers(composite, members[c], c))
    && (forall x :: 0 <= x < |composite| && composite[x].Some? ==> composite[x].value in members)
  }

  // ----- changing the level of a set of capabilities

  function AtLevel(cap: Cap, i: nat, il: Level): Cap {
    match il
    case SDT => cap.(il := il, entry := cap.stubs.sdServ, user := UserCap(cap.stubs.sdCli, 0, i * 0x100000))
    case AST => cap.(il := il, entry := cap.stubs.atServ, user := UserCap(cap.stubs.atCli, 0, i * 0x100000))
    case ST => cap.(il := il, entry := cap.stubs.stServ, user := UserCap(cap.stubs.stServ, 0, i * 0x100000))
    case INV => cap.(il := il)
  }

  /** Exactly the capabilities of sel have been set to the level. */
  ghost predicate Switched(was: seq<Cap>, now: seq<Cap>, sel: set<nat>, il: Level) {
    |now| == |was| && forall i :: 0 <= i < |was| ==> now[i] == if i in sel then AtLevel(was[i], i, il) else was[i]
  }

  lemma SwitchedTwice(a: seq<Cap>, b: seq<Cap>, c: seq<Cap>, sel: set<nat>, more: set<nat>, il: Level)
    requires Switched(a, b, sel, il) && Switched(b, c, more, il) && sel !! more
    ensures Switched(a, c, sel + more, il)
  {
  }

  /** The capabilities of spd s, among those below n, whose destination is another member of composite c. */
  ghost function ToMembers(caps: seq<Cap>, base: seq<nat>, range: seq<nat>, composite: seq<Option<nat>>, s: nat,
                           c: nat, n: nat): set<nat> {
    set i | 0 <= i < n && CallsOut(caps, base, range, s, i)
            && caps[i].dest.value < |composite| && composite[caps[i].dest.value] == Some(c)
  }

  /** The capabilities of spd s, among those below n, whose destination is the spd d. */
  ghost function ToSpd(caps: seq<Cap>, base: seq<nat>, range: seq<nat>, s: nat, d: nat, n: nat): set<nat> {
    set i | 0 <= i < n && CallsOut(caps, base, range, s, i) && caps[i].dest.value == d
  }

  /** The capabilities towards spd d of the spds listed in m. */
  ghost function FromListed(caps: seq<Cap>, base: seq<nat>, range: seq<nat>, m: seq<nat>, d: nat): set<nat> {
    set i | 0 <= i < |caps| && CallsOut(caps, base, range, caps[i].owner, i)
            && caps[i].owner in m && caps[i].dest.value == d
  }

  /** One of the two spds is d and the other is listed in m. */
  ghost predicate Pair(m: seq<nat>, d: nat, x: nat, y: nat) {
    (x in m && y == d) || (x == d && y in m)
  }

  /** The capabilities between spd d and the spds listed in m. */
  ghost function BothWays(caps: seq<Cap>, base: seq<nat>, range: seq<nat>, m: seq<nat>, d: nat): set<nat> {
    set i | 0 <= i < |caps| && CallsOut(caps, base, range, caps[i].owner, i)
            && Pair(m, d, caps[i].owner, caps[i].dest.value)
  }

  datatype Op =
    | Alloc(c: nat)
    | Add(c: nat, d: nat)
    | Remove(d: nat)
    | Move(c: nat, d: nat)
    | Merge(to: nat, other: nat)
    | Split(d: nat, new1: nat, new2: Option<nat>)

  /** Which composite each spd is in, and the composites there are. */
  datatype Placement = Placement(of: seq<Option<nat>>, composites: set<nat>)

  /** What an operation does to the placement; one that is not possible does nothing. */
  ghost predicate Stepped(p: Placement, op: Op, q: Placement) {
    match op
    case Alloc(c) => q == p.(composites := p.composites + {c})
    case Add(c, d) =>
      q == if c in p.composites && d < |p.of| && p.of[d].None? then p.(of := p.of[d := Some(c)]) else p
    case Remove(d) => q == if d < |p.of| then p.(of := p.of[d := None]) else p
    case Move(c, d) =>
      q == if c in p.composites && d < |p.of| && p.of[d].Some? then p.(of := p.of[d := Some(c)]) else p
    case Merge(to, other) =>
      q.composites == p.composites
      && if to in p.composites && other in p.composites
         then |q.of| == |p.of|
              && forall x :: 0 <= x < |p.of| ==> q.of[x] == if p.of[x] == Some(other) then Some(to) else p.of[x]
         else q == p
    case Split(d, new1, new2) =>
      q.composites == p.composites
      && if && d < |p.of| && p.of[d].Some? && new1 in p.composites && p.of[d] != Some(new1)
            && (new2.None? || (new2.value in p.composites && new2 != p.of[d] && new2.value != new1))
         then |q.of| == |p.of|
              && forall x :: 0 <= x < |p.of| ==>
                   q.of[x] == if x == d then Some(new1) else if p.of[x] == p.of[d] && new2.Some? then new2 else p.of[x]
         else q == p
  }

  /** The placements are those that the operations lead through. */
  ghost predicate IsRun(ps: seq<Placement>, ops: seq<Op>) {
    |ps| == |ops| + 1 && forall i :: 0 <= i < |ops| ==> Stepped(ps[i], ops[i], ps[i + 1])
  }

  lemma LongerRun(ps: seq<Placement>, ops: seq<Op>, i: nat, q: Placement)
    requires i < |ops| && |ps| == i + 1 && IsRun(ps, ops[..i]) && Stepped(ps[i], ops[i], q)
    ensures IsRun(ps + [q], ops[..i + 1])
  {
    hide Stepped;
    forall j | 0 <= j < i + 1
      ensures Stepped((ps + [q])[j], ops[..i + 1][j], (ps + [q])[j + 1])
    {
      assert j < i ==> ops[..i][j] == ops[j] && Stepped(ps[j], ops[..i][j], ps[j + 1]);
    }
  }

  class CapTable {
    var caps: seq<Cap>
    const base: seq<nat>
    const range: seq<nat>
    var composite: seq<Option<nat>>
    var members: map<nat, seq<nat>>

    ghost function View(): Placement
      reads this`composite, this`members
    {
      Placement(composite, members.Keys)
    }

    ghost predicate Valid()
      reads this
    {
      && TablesOk(caps, base, range) && |composite| == |base|
      && MembersOk(composite, members) && LevelsOk(caps, base, range, composite)
    }

    /** The capabilities as spd_cap_activate leaves them: all SDT, and no spd in a composite yet. */
    constructor (caps: seq<Cap>, base: seq<nat>, range: seq<nat>)
      requires TablesOk(caps, base, range)
      requires forall s: nat, i: nat :: CallsOut(caps, base, range, s, i) ==>
        caps[i].il == SDT && EntriesAgree(caps[i], i)
      ensures Valid() && this.caps == caps && this.base == base && this.range == range
      ensures members == map[] && forall x :: 0 <= x < |composite| ==> composite[x].None?
    {
      this.caps, this.base, this.range := caps, base, range;
      composite, members := seq(|base|, x => None), map[];
    }

    /** cap_change_isolation: INV is returned for a number that is no capability's, and for the level INV, which the
        capability then has with the entries it had before. */
    method ChangeIsolation(i: nat, il: Level) returns (prev: Level)
      modifies this`caps
      ensures i >= |old(caps)| ==> caps == old(caps) && prev == INV
      ensures i < |old(caps)| ==> caps == old(caps)[i := AtLevel(old(caps)[i], i, il)]
      ensures i < |old(caps)| ==> prev == if il == INV then INV else old(caps)[i].il
      ensures i < |old(caps)| ==> caps[i].il == il && (il != INV ==> EntriesAgree(caps[i], i))
    {
      if i >= |caps| {
        return INV;
      }
      prev := caps[i].il;
      var cap := caps[i].(il := il);
      var no := i * 0x100000;
      match il {
        case SDT => cap := cap.(entry := cap.stubs.sdServ, user := UserCap(cap.stubs.sdCli, 0, no));
        case AST => cap := cap.(entry := cap.stubs.atServ, user := UserCap(cap.stubs.atCli, 0, no));
        case ST => cap := cap.(entry := cap.stubs.stServ, user := UserCap(cap.stubs.stServ, 0, no));
        case INV => prev := INV;
      }
      caps := caps[i := cap];
    }

    /** spd_chg_il_spd_to_all. */
    method SpdToAll(s: nat, c: nat, il: Level)
      requires TablesOk(caps, base, range) && |composite| == |base| && s < |base| && il != INV
      requires forall i :: i in ToMembers(caps, base, range, composite, s, c, |caps|) ==>
        caps[i].il != il && caps[i].il != INV
      modifies this`caps
      ensures Switched(old(caps), caps, ToMembers(old(caps), base, range, composite, s, c, |old(caps)|), il)
    {
      if range[s] == 0 {
        return;
      }
      ghost var was := caps;
      var i := base[s] + 1;
      while i < base[s] + range[s]
        invariant base[s] + 1 <= i <= base[s] + range[s]
        invariant Switched(was, caps, ToMembers(was, base, range, composite, s, c, i), il)
      {
        assert Calls(base, range, s, i);
        var dest := caps[i].dest;
        if dest.Some? && dest.value != s && composite[dest.value] == Some(c) {
          var prev := ChangeIsolation(i, il);
          assert prev != il && prev != INV;
        }
        i := i + 1;
      }
    }

    /** The inner loop of spd_chg_il_all_to_spd: the capabilities of one member. */
    method OneToSpd(s: nat, d: nat, il: Level)
      requires TablesOk(caps, base, range) && s < |base| && s != d && il != INV
      requires forall i :: i in ToSpd(caps, base, range, s, d, |caps|) ==> caps[i].il != il && caps[i].il != INV
      modifies this`caps
      ensures Switched(old(caps), caps, ToSpd(old(caps), base, range, s, d, |old(caps)|), il)
    {
      if range[s] <= 0 {
        return;
      }
      ghost var was := caps;
      var i := base[s] + 1;
      while i < base[s] + range[s]
        invariant base[s] + 1 <= i <= base[s] + range[s]
        invariant Switched(was, caps, ToSpd(was, base, range, s, d, i), il)
      {
        assert Calls(base, range, s, i);
        if caps[i].dest.Some? && caps[i].owner != d && caps[i].dest.value == d {
          var prev := ChangeIsolation(i, il);
          assert prev != il && prev != INV;
        }
        i := i + 1;
      }
    }

    /** spd_chg_il_all_to_spd, for the members in ring order. */
    method AllToSpd(m: seq<nat>, d: nat, il: Level)
      requires TablesOk(caps, base, range) && d !in m && Distinct(m) && il != INV
      requires forall x :: x in m ==> x < |base|
      requires forall i :: i in FromListed(caps, base, range, m, d) ==> caps[i].il != il && caps[i].il != INV
      modifies this`caps
      ensures Switched(old(caps), caps, FromListed(old(caps), base, range, m, d), il)
    {
      hide TablesOk;
      hide Switched;
      hide ToSpd;
      ghost var was := caps;
      SwitchedNone(caps, il);
      assert FromListed(was, base, range, m[..0], d) == {};
      for k := 0 to |m|
        invariant TablesOk(caps, base, range) && Switched(was, caps, FromListed(was, base, range, m[..k], d), il)
      {
        PrefixStep(m, k);
        NextMember(was, caps, base, range, m, d, k, il);
        ghost var mid := caps;
        OneToSpd(m[k], d, il);
        SwitchedTables(mid, caps, base, range, ToSpd(mid, base, range, m[k], d, |mid|), il);
        SwitchedTwice(was, mid, caps, FromListed(was, base, range, m[..k], d),
                      ToSpd(was, base, range, m[k], d, |was|), il);
      }
      assert m[..|m|] == m;
    }

    /** spd_add_caps and spd_remove_caps: the level of everything between spd d and composite c. */
    method ChangeBoth(c: nat, d: nat, il: Level)
      requires TablesOk(caps, base, range) && |composite| == |base| && d < |base| && il != INV
      requires c in members && ListsOthers(composite, members[c], c, d)
      requires forall i :: i in BothWays(caps, base, range, members[c], d) ==> caps[i].il != il && caps[i].il != INV
      modifies this`caps
      ensures Switched(old(caps), caps, BothWays(old(caps), base, range, members[c], d), il)
      ensures TablesOk(caps, base, range)
    {
      hide TablesOk;
      hide Switched;
      hide BothWays;
      hide FromListed;
      hide ToMembers;
      ghost var was := caps;
      FirstWay(was, base, range, composite, members[c], c, d);
      AllToSpd(members[c], d, il);
      ghost var mid := caps;
      OtherWay(was, mid, base, range, composite, members[c], c, d, il);
      SwitchedTables(was, mid, base, range, FromListed(was, base, range, members[c], d), il);
      Untouched(was, mid, FromListed(was, base, range, members[c], d),
                ToMembers(was, base, range, composite, d, c, |was|), il);
      SpdToAll(d, c, il);
      SwitchedTables(mid, caps, base, range, ToMembers(was, base, range, composite, d, c, |was|), il);
      SwitchedTwice(was, mid, caps, FromListed(was, base, range, members[c], d),
                    ToMembers(was, base, range, composite, d, c, |was|), il);
    }

    /** spd_composite_add_member. */
    method AddMember(c: nat, d: nat)
      requires Valid() && c in members && d < |composite| && composite[d].None?
      modifies this`caps, this`composite, this`members
      ensures Valid() && composite == old(composite)[d := Some(c)]
      ensures members == old(members)[c := [d] + old(members)[c]]
      ensures SameCalls(old(caps), caps)
    {
      hide TablesOk;
      hide LevelsOk;
      hide MembersOk;
      hide Switched;
      hide BothWays;
      ghost var was, before, m := caps, composite, members[c];
      OutsideComposite(composite, members, c, d);
      LevelBetween(caps, base, range, composite, m, d, ST);
      ChangeBoth(c, d, ST);
      members := members[c := [d] + members[c]];
      composite := composite[d := Some(c)];
      Joined(before, m, c, d);
      Relevelled(was, caps, base, range, before, composite, m, d, ST);
      MemberJoins(before, old(members), c, d);
      SwitchedCalls(was, caps, BothWays(was, base, range, m, d), ST);
    }

    /** spd_composite_remove_member. */
    method RemoveMember(d: nat)
      requires Valid() && d < |composite| && composite[d].Some?
      modifies this`caps, this`composite, this`members
      ensures Valid() && composite == old(composite)[d := None]
      ensures var c := old(composite)[d].value;
              c in old(members) && members == old(members)[c := Without(old(members)[c], d)]
      ensures SameCalls(old(caps), caps)
    {
      hide TablesOk;
      hide LevelsOk;
      hide MembersOk;
      hide Switched;
      hide BothWays;
      ghost var was, before := caps, composite;
      var c := composite[d].value;
      MemberLeaves(before, members, c, d);
      members := members[c := Without(members[c], d)];
      composite := composite[d := None];
      ghost var m := members[c];
      Parted(before, m, c, d);
      LevelBetween(caps, base, range, before, m, d, SDT);
      ChangeBoth(c, d, SDT);
      Relevelled(was, caps, base, range, before, composite, m, d, SDT);
      SwitchedCalls(was, caps, BothWays(was, base, range, m, d), SDT);
    }

    /** spd_composite_move_member. */
    method MoveMember(c: nat, d: nat)
      requires Valid() && c in members && d < |composite| && composite[d].Some?
      modifies this`caps, this`composite, this`members
      ensures Valid() && composite == old(composite)[d := Some(c)] && SameCalls(old(caps), caps)
      ensures var b := old(composite)[d].value;
              b in old(members)
              && members == var m := old(members)[b := Without(old(members)[b], d)]; m[c := [d] + m[c]]
    {
      hide Valid;
      RemoveMember(d);
      AddMember(c, d);
      assert old(composite)[d := None][d := Some(c)] == old(composite)[d := Some(c)];
    }

    /** The loop of mpd_merge, and of mpd_split_composite_populate: all members of one composite move to another. */
    method MoveAll(to: nat, other: nat)
      requires Valid() && to in members && other in members && to != other
      modifies this`caps, this`composite, this`members
      ensures Valid() && members.Keys == old(members).Keys && members[other] == [] && SameCalls(old(caps), caps)
      ensures |composite| == |old(composite)| && forall x :: 0 <= x < |composite| ==>
                composite[x] == if old(composite)[x] == Some(other) then Some(to) else old(composite)[x]
    {
      hide Valid;
      while members[other] != []
        invariant Valid() && members.Keys == old(members).Keys && SameCalls(old(caps), caps)
        invariant |composite| == |old(composite)| && forall x :: 0 <= x < |composite| ==>
                    composite[x] == old(composite)[x] || (old(composite)[x] == Some(other) && composite[x] == Some(to))
        decreases |members[other]|
      {
        var curr := members[other][0];
        HeadIsMember(other);
        MoveMember(to, curr);
      }
      NoMembers(other);
    }

    lemma HeadIsMember(c: nat)
      requires Valid() && c in members && members[c] != []
      ensures members[c][0] < |composite| && composite[members[c][0]] == Some(c)
      ensures |Without(members[c], members[c][0])| < |members[c]|
    {
      assert members[c][0] in members[c];
      assert ListsMembers(composite, members[c], c);
    }

    lemma NoMembers(c: nat)
      requires Valid() && c in members && members[c] == []
      ensures forall x :: 0 <= x < |composite| ==> composite[x] != Some(c)
    {
      assert ListsMembers(composite, members[c], c);
    }

    /** mpd_split: the spd goes to a new composite; the others stay, or go to a second new one. */
    method Split(d: nat, new1: nat, new2: Option<nat>)
      requires Valid() && d < |composite| && composite[d].Some? && new1 in members && composite[d] != Some(new1)
      requires new2.Some? ==> new2.value in members && Some(new2.value) != composite[d] && new2.value != new1
      modifies this`caps, this`composite, this`members
      ensures Valid() && members.Keys == old(members).Keys && SameCalls(old(caps), caps)
      ensures |composite| == |old(composite)| && composite[d] == Some(new1)
      ensures forall x :: 0 <= x < |composite| && x != d ==>
                composite[x] == if old(composite)[x] == old(composite)[d] && new2.Some? then new2 else old(composite)[x]
    {
      hide Valid;
      var c := composite[d].value;
      RemoveMember(d);
      AddMember(new1, d);
      if new2.Some? {
        MoveAll(new2.value, c);
      }
    }

    /** spd_alloc_mpd_desc: a composite without members. */
    method AllocComposite(c: nat)
      requires Valid() && c !in members
      modifies this`members
      ensures Valid() && members == old(members)[c := []]
    {
      hide LevelsOk;
      hide TablesOk;
      members := members[c := []];
      assert ListsMembers(composite, [], c);
    }

    /** One operation, if the kernel allows it in the present state. */
    method Step(op: Op)
      requires Valid()
      modifies this`caps, this`composite, this`members
      ensures Valid() && SameCalls(old(caps), caps) && Stepped(old(View()), op, View())
    {
      hide Valid;
      hide SameCalls;
      SameCallsAtAll(caps);
      match op {
        case Alloc(c) =>
          if c !in members {
            AllocComposite(c);
          }
        case Add(c, d) =>
          if c in members && d < |composite| && composite[d].None? {
            AddMember(c, d);
          }
        case Remove(d) =>
          if d < |composite| && composite[d].Some? {
            RemoveMember(d);
          }
        case Move(c, d) =>
          if c in members && d < |composite| && composite[d].Some? {
            MoveMember(c, d);
          }
        case Merge(to, other) =>
          if to in members && other in members && to != other {
            MoveAll(to, other);
          }
        case Split(d, new1, new2) =>
          if d < |composite| && composite[d].Some? && new1 in members && composite[d] != Some(new1)
             && (new2.None? || (new2.value in members && new2 != composite[d] && new2.value != new1)) {
            Split(d, new1, new2);
          }
      }
    }

    /** Every run of operations leaves every capability at the level that the composites ask for. */
    method Run(ops: seq<Op>) returns (ghost ps: seq<Placement>)
      requires Valid()
      modifies this`caps, this`composite, this`members
      ensures Valid() && SameCalls(old(caps), caps)
      ensures IsRun(ps, ops) && ps[0] == old(View()) && ps[|ops|] == View()
      ensures forall x: nat, i: nat :: CallsOut(caps, base, range, x, i) ==>
                EntriesAgree(caps[i], i) && caps[i].il == if Together(composite, x, caps[i].dest.value) then ST else SDT
    {
      ps := [View()];
      for i := 0 to |ops|
        invariant Valid() && SameCalls(old(caps), caps)
        invariant |ps| == i + 1 && ps[0] == old(View()) && ps[i] == View() && IsRun(ps, ops[..i])
      {
        hide Valid;
        hide Stepped;
        Step(ops[i]);
        LongerRun(ps, ops, i, View());
        ps := ps + [View()];
      }
      assert ops[..|ops|] == ops;
    }
  }

  lemma SameCallsAtAll(caps: seq<Cap>)
    ensures SameCalls(caps, caps)
  {
  }

  lemma SwitchedNone(caps: seq<Cap>, il: Level)
    ensures Switched(caps, caps, {}, il)
  {
  }

  lemma SwitchedTables(was: seq<Cap>, now: seq<Cap>, base: seq<nat>, range: seq<nat>, sel: set<nat>, il: Level)
    requires TablesOk(was, base, range) && Switched(was, now, sel, il)
    ensures TablesOk(now, base, range)
  {
  }

  /** The capabilities of the next member are untouched so far. */
  lemma NextMember(was: seq<Cap>, now: seq<Cap>, base: seq<nat>, range: seq<nat>, m: seq<nat>, d: nat, k: nat,
                   il: Level)
    requires TablesOk(was, base, range) && Distinct(m) && k < |m| && d !in m
    requires Switched(was, now, FromListed(was, base, range, m[..k], d), il)
    requires forall i :: i in FromListed(was, base, range, m, d) ==> was[i].il != il && was[i].il != INV
    ensures ToSpd(now, base, range, m[k], d, |now|) == ToSpd(was, base, range, m[k], d, |was|)
    ensures ToSpd(was, base, range, m[k], d, |was|) !! FromListed(was, base, range, m[..k], d)
    ensures FromListed(was, base, range, m[..k + 1], d)
            == FromListed(was, base, range, m[..k], d) + ToSpd(was, base, range, m[k], d, |was|)
    ensures m[k] != d && m[k] in m
    ensures forall i :: i in ToSpd(now, base, range, m[k], d, |now|) ==> now[i].il != il && now[i].il != INV
  {
    assert m[..k + 1] == m[..k] + [m[k]];
    assert forall i :: 0 <= i < |was| ==> now[i].dest == was[i].dest;
    assert forall i :: i in ToSpd(was, base, range, m[k], d, |was|) ==> was[i].owner == m[k];
  }

  /** Once the members have been done, what spd d calls in composite c is still as it was. */
  lemma OtherWay(was: seq<Cap>, now: seq<Cap>, base: seq<nat>, range: seq<nat>, composite: seq<Option<nat>>,
                 m: seq<nat>, c: nat, d: nat, il: Level)
    requires TablesOk(was, base, range) && d !in m && ListsOthers(composite, m, c, d)
    requires Switched(was, now, FromListed(was, base, range, m, d), il)
    ensures ToMembers(now, base, range, composite, d, c, |now|) == ToMembers(was, base, range, composite, d, c, |was|)
    ensures ToMembers(was, base, range, composite, d, c, |was|) !! FromListed(was, base, range, m, d)
    ensures BothWays(was, base, range, m, d)
            == FromListed(was, base, range, m, d) + ToMembers(was, base, range, composite, d, c, |was|)
  {
    assert forall i :: 0 <= i < |was| ==> now[i].dest == was[i].dest;
    assert forall i :: i in ToMembers(was, base, range, composite, d, c, |was|) ==> was[i].owner == d;
  }

  /** m lists the members of composite c other than d. */
  ghost predicate ListsOthers(composite: seq<Option<nat>>, m: seq<nat>, c: nat, d: nat) {
    Distinct(m) && d !in m && forall x: nat :: x != d ==> (x in m <==> x < |composite| && composite[x] == Some(c))
  }

  /** If exactly the capabilities between d and m change to the level that the new composites ask for, the
      levels are right again. */
  lemma Relevelled(was: seq<Cap>, now: seq<Cap>, base: seq<nat>, range: seq<nat>,
                   before: seq<Option<nat>>, after: seq<Option<nat>>, m: seq<nat>, d: nat, il: Level)
    requires TablesOk(was, base, range) && LevelsOk(was, base, range, before)
    requires Switched(was, now, BothWays(was, base, range, m, d), il) && (il == ST || il == SDT)
    requires forall x: nat, y: nat :: x != y ==>
      Together(after, x, y) == if Pair(m, d, x, y) then il == ST else Together(before, x, y)
    ensures LevelsOk(now, base, range, after)
  {
    forall s: nat, i: nat | CallsOut(now, base, range, s, i)
      ensures now[i].il == (if Together(after, s, now[i].dest.value) then ST else SDT) && EntriesAgree(now[i], i)
    {
      assert CallsOut(was, base, range, s, i) && was[i].owner == s;
      assert i in BothWays(was, base, range, m, d) <==> Pair(m, d, s, was[i].dest.value);
    }
  }

  /** The capabilities between d and the others of composite c are at the level that the composites ask for. */
  lemma LevelBetween(caps: seq<Cap>, base: seq<nat>, range: seq<nat>, composite: seq<Option<nat>>, m: seq<nat>,
                     d: nat, il: Level)
    requires TablesOk(caps, base, range) && LevelsOk(caps, base, range, composite)
    requires forall x: nat :: x in m ==>
      (Together(composite, x, d) <==> il == SDT) && (Together(composite, d, x) <==> il == SDT)
    ensures forall i :: i in BothWays(caps, base, range, m, d) ==> caps[i].il == if il == SDT then ST else SDT
  {
    forall i | i in BothWays(caps, base, range, m, d)
      ensures caps[i].il == if il == SDT then ST else SDT
    {
      assert CallsOut(caps, base, range, caps[i].owner, i);
    }
  }

  /** Owners, destinations and stubs of the capabilities do not change. */
  ghost predicate SameCalls(was: seq<Cap>, now: seq<Cap>) {
    |now| == |was| && forall i :: 0 <= i < |was| ==>
      now[i].owner == was[i].owner && now[i].dest == was[i].dest && now[i].stubs == was[i].stubs
  }

  lemma SwitchedCalls(was: seq<Cap>, now: seq<Cap>, sel: set<nat>, il: Level)
    requires Switched(was, now, sel, il)
    ensures SameCalls(was, now)
  {
  }

  lemma Untouched(was: seq<Cap>, now: seq<Cap>, sel: set<nat>, other: set<nat>, il: Level)
    requires Switched(was, now, sel, il) && sel !! other
    ensures forall i :: i in other && i < |was| ==> now[i] == was[i]
  {
  }

  lemma FirstWay(caps: seq<Cap>, base: seq<nat>, range: seq<nat>, composite: seq<Option<nat>>, m: seq<nat>, c: nat,
                 d: nat)
    requires TablesOk(caps, base, range) && ListsOthers(composite, m, c, d) && |composite| == |base|
    ensures FromListed(caps, base, range, m, d) <= BothWays(caps, base, range, m, d)
    ensures ToMembers(caps, base, range, composite, d, c, |caps|) <= BothWays(caps, base, range, m, d)
    ensures forall i :: i in ToMembers(caps, base, range, composite, d, c, |caps|) ==> i < |caps|
    ensures forall x :: x in m ==> x < |base|
  {
  }

  lemma OutsideComposite(composite: seq<Option<nat>>, members: map<nat, seq<nat>>, c: nat, d: nat)
    requires MembersOk(composite, members) && c in members && d < |composite| && composite[d].None?
    ensures ListsOthers(composite, members[c], c, d)
    ensures forall x: nat :: x in members[c] ==> !Together(composite, x, d) && !Together(composite, d, x)
  {
    assert ListsMembers(composite, members[c], c);
  }

  /** Who is together once spd d, which was in no composite, has joined c. */
  lemma Joined(before: seq<Option<nat>>, m: seq<nat>, c: nat, d: nat)
    requires d < |before| && before[d].None? && ListsOthers(before, m, c, d)
    ensures var after := before[d := Some(c)];
            forall x: nat, y: nat :: x != y ==> Together(after, x, y) == (Pair(m, d, x, y) || Together(before, x, y))
  {
  }

  /** Who is together once spd d has left c. */
  lemma Parted(before: seq<Option<nat>>, m: seq<nat>, c: nat, d: nat)
    requires d < |before| && before[d] == Some(c) && ListsOthers(before, m, c, d)
    ensures ListsOthers(before[d := None], m, c, d)
    ensures var after := before[d := None];
            forall x: nat, y: nat :: x != y ==> Together(after, x, y) == (!Pair(m, d, x, y) && Together(before, x, y))
    ensures forall x: nat :: x in m ==> Together(before, x, d) && Together(before, d, x)
  {
  }

  lemma MemberJoins(composite: seq<Option<nat>>, members: map<nat, seq<nat>>, c: nat, d: nat)
    requires MembersOk(composite, members) && c in members && d < |composite| && composite[d].None?
    ensures MembersOk(composite[d := Some(c)], members[c := [d] + members[c]])
  {
    var after := composite[d := Some(c)];
    assert ListsMembers(composite, members[c], c);
    assert ListsMembers(after, [d] + members[c], c);
    forall k | k in members && k != c
      ensures ListsMembers(after, members[k], k)
    {
      assert ListsMembers(composite, members[k], k);
    }
  }

  lemma MemberLeaves(composite: seq<Option<nat>>, members: map<nat, seq<nat>>, c: nat, d: nat)
    requires MembersOk(composite, members) && d < |composite| && composite[d] == Some(c)
    ensures c in members && MembersOk(composite[d := None], members[c := Without(members[c], d)])
    ensures ListsOthers(composite, Without(members[c], d), c, d)
  {
    var after, m := composite[d := None], Without(members[c], d);
    assert ListsMembers(composite, members[c], c);
    WithoutElems(members[c], d);
    forall x: nat
      ensures x in m <==> x in members[c] && x != d
    {
      assert x in m <==> x in Elems(m);
      assert x in members[c] <==> x in Elems(members[c]);
    }
    assert ListsMembers(after, m, c);
    forall k | k in members && k != c
      ensures ListsMembers(after, members[k], k)
    {
      assert ListsMembers(composite, members[k], k);
    }
  }
}
