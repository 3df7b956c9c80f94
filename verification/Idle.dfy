/** Policies with useless entries: lists of conditions that are empty in the wrong place leave a check with nothing between its two
    ways on, and `Assemble` rejects that. */
module Idle {
  import opened Results
  import opened Words
  import opened Bpf
  import opened Labelled
  import opened Assembler
  import opened Resolution
  import opened Policies
  import opened Merge
  import opened Codegen
  import opened CodegenMeaning
  import opened Tameness
  import opened Compiler
  import opened Correctness
  import opened Sizes
  import opened Acceptance
  import opened Turns
  import opened Nearby
  import opened PolicyLimit
  import opened Failures

  // ---- checks with nothing between their two ways on ----

  /** The first item is such a check. */
  predicate IdleHead(items: seq<Item>) {
    items != [] && items[0].Branch? && Dist(items[1..], items[0].onTrue) == 0 == Dist(items[1..], items[0].onFalse)
  }

  predicate HasIdle(items: seq<Item>) { items != [] && (IdleHead(items) || HasIdle(items[1..])) }

  lemma {:induction false} IdleBehind(a: seq<Item>, k: seq<Item>)
    requires HasIdle(k)
    ensures HasIdle(a + k)
  {
    hide IdleHead;
    if a == [] {
      assert a + k == k;
    } else {
      assert (a + k)[1..] == a[1..] + k;
      IdleBehind(a[1..], k);
    }
  }

  lemma IdleHere(br: Item, k: seq<Item>)
    requires br.Branch? && Dist(k, br.onTrue) == 0 == Dist(k, br.onFalse)
    ensures IdleHead([br] + k) && HasIdle([br] + k)
  {
    assert ([br] + k)[1..] == k;
  }

  lemma Prepend(x: Item, pre: seq<Item>, br: Item, rest: seq<Item>)
    ensures [x] + (pre + [br] + rest) == ([x] + pre) + [br] + rest
  {}

  lemma {:induction false} IdleSplit(items: seq<Item>) returns (pre: seq<Item>, br: Item, rest: seq<Item>)
    requires HasIdle(items)
    ensures items == pre + [br] + rest && br.Branch? && Dist(rest, br.onTrue) == 0 == Dist(rest, br.onFalse)
  {
    hide Dist;
    if IdleHead(items) {
      pre, br, rest := [], items[0], items[1..];
    } else {
      pre, br, rest := IdleSplit(items[1..]);
      Prepend(items[0], pre, br, rest);
      assert items == [items[0]] + items[1..];
      pre := [items[0]] + pre;
    }
  }

  /** The last check of a condition goes on to `na` or `nc`. */
  lemma ConditionIdle(c: Condition, na: Label, nc: Label, last: Label, o: Order, k: seq<Item>)
    requires Dist(k, na) == 0 == Dist(k, nc)
    ensures HasIdle(ConditionItems(c, na, nc, last, o).items + k)
  {
    hide ConditionItems, CheckTrue, HasIdle, IdleHead, Dist, HiOffset, LoOffset, Hi, Lo;
    ConditionCases(c, na, nc, last, o);
    var items, br := ConditionItems(c, na, nc, last, o).items, Branch(LowTest(c.op), Lo(c.value), na, nc);
    var front := items[..|items| - 1];
    assert items == front + [br];
    IdleHere(br, k);
    IdleBehind(front, [br] + k);
    Regroup(front, [br], k);
  }

  lemma {:induction false} SetIdle(cs: ConditionSet, action: Label, nc: Label, last: Label, o: Order, k: seq<Item>)
    requires cs != [] && Dist(k, action) == 0 == Dist(k, nc)
    ensures HasIdle(SetItems(cs, action, nc, last, o).items + k)
  {
    hide ConditionItems, HasIdle, Dist, MarkIf;
    var more := |cs| > 1;
    var na := if more then last + 1 else action;
    var head := ConditionItems(cs[0], na, nc, if more then last + 1 else last, o);
    var rest := SetItems(cs[1..], action, nc, head.last, o).items;
    if more {
      SetIdle(cs[1..], action, nc, head.last, o, k);
      IdleBehind(head.items + MarkIf(more, na), rest + k);
      Regroup(head.items + MarkIf(more, na), rest, k);
    } else {
      NoMarkIf(na);
      NoSetItems(action, nc, head.last, o);
      assert cs[1..] == [] && head.items + [] + [] == head.items;
      ConditionIdle(cs[0], na, nc, last, o, k);
    }
  }

  /** Alternatives without conditions emit only marks of new labels. */
  lemma {:induction false} OnlyMarks(sets: seq<ConditionSet>, action: Label, next: Label, last: Label, o: Order, k: seq<Item>,
                                     l: Label)
    requires AllEmpty(sets) && l <= last
    ensures Dist(SetsItems(sets, action, next, last, o).items + k, l) == Dist(k, l)
  {
    hide SetsItems, Dist;
    if |sets| <= 1 {
      NoSetsItems(sets, action, next, last, o);
      assert [] + k == k;
    } else {
      var nc := last + 1;
      var rest := SetsItems(sets[1..], action, next, nc, o).items;
      EmptyFirst(sets, action, next, last, o);
      OnlyMarks(sets[1..], action, next, nc, o, k, l);
      MarkedHere(nc, rest + k, l);
      Regroup([Mark(nc)], rest, k);
    }
  }

  lemma NoSetsItems(sets: seq<ConditionSet>, action: Label, next: Label, last: Label, o: Order)
    requires |sets| <= 1 && AllEmpty(sets)
    ensures SetsItems(sets, action, next, last, o).items == []
  {
    if sets != [] {
      assert SetItems(sets[0], action, next, last, o).items == [] && |sets[1..]| == 0;
    }
  }

  lemma EmptyFirst(sets: seq<ConditionSet>, action: Label, next: Label, last: Label, o: Order)
    requires |sets| > 1 && sets[0] == []
    ensures SetsItems(sets, action, next, last, o).items
            == [Mark(last + 1)] + SetsItems(sets[1..], action, next, last + 1, o).items
  {
    NoSetItems(action, last + 1, last + 1, o);
  }

  lemma {:induction false} SetsIdle(sets: seq<ConditionSet>, action: Label, next: Label, last: Label, o: Order, k: seq<Item>)
    requires TrailsOff(sets) && action <= last && Dist(k, action) == 0
    ensures HasIdle(SetsItems(sets, action, next, last, o).items + k)
  {
    hide SetItems, HasIdle, Dist;
    assert |sets| > 1;
    var nc := last + 1;
    var head := SetItems(sets[0], action, nc, nc, o);
    var rest := SetsItems(sets[1..], action, next, head.last, o).items;
    assert SetsItems(sets, action, next, last, o).items + k == head.items + ([Mark(nc)] + (rest + k));
    SetWithin(sets[0], action, nc, nc, o);
    WithinGrows(head.items, nc, head.last);
    if AllEmpty(sets[1..]) {
      assert sets[0] != [];
      OnlyMarks(sets[1..], action, next, head.last, o, k, action);
      MarkedHere(nc, rest + k, action);
      SetIdle(sets[0], action, nc, nc, o, [Mark(nc)] + (rest + k));
    } else {
      assert sets[1..][|sets| - 2] == sets[|sets| - 1];
      SetsIdle(sets[1..], action, next, head.last, o, k);
      IdleBehind([Mark(nc)], rest + k);
      IdleBehind(head.items, [Mark(nc)] + (rest + k));
    }
  }

  /** A useless entry has such a check; with more entries behind it, that is its number check. */
  lemma EntryIdle(e: Entry, more: bool, action: Label, end: Label, last: Label, o: Order, k: seq<Item>)
    requires UselessEntry(e, more) && action <= last && (!more ==> Dist(k, action) == 0)
    ensures var r := EntryItems(e, more, action, end, last, o).items + k; HasIdle(r) && (more ==> IdleHead(r))
  {
    hide SetsItems, HasIdle, IdleHead, Dist, AllEmpty, TrailsOff;
    var next := if more then last + 1 else end;
    var first := (if more then last + 1 else last) + 1;
    var sets := SetsItems(e.conditions, action, next, first, o).items;
    var br := Branch(Test.NotEqual, e.num, next, first);
    var q := sets + (MarkIf(more, next) + k);
    assert EntryItems(e, more, action, end, last, o).items + k == [br] + ([Mark(first)] + q);
    if more {
      MarkedHere(next, k, next);
      OnlyMarks(e.conditions, action, next, first, o, [Mark(next)] + k, next);
      MarkedHere(first, q, next);
      IdleHere(br, [Mark(first)] + q);
    } else {
      NoMarkIf(next);
      assert MarkIf(more, next) + k == k;
      SetsIdle(e.conditions, action, next, first, o, k);
      IdleBehind([Mark(first)], q);
      IdleBehind([br], [Mark(first)] + q);
    }
  }

  lemma {:induction false} EntriesIdle(es: seq<Entry>, action: Label, end: Label, last: Label, o: Order, k: seq<Item>)
    requires !UsefulEntries(es) && action <= last && Dist(k, action) == 0
    ensures HasIdle(EntriesItems(es, action, end, last, o).items + k)
  {
    hide EntryItems, HasIdle, IdleHead, Dist, UselessEntry;
    var more := |es| > 1;
    var head := EntryItems(es[0], more, action, end, last, o);
    var rest := EntriesItems(es[1..], action, end, head.last, o).items;
    assert EntriesItems(es, action, end, last, o).items + k == head.items + (rest + k);
    if UselessEntry(es[0], more) {
      if !more {
        assert es[1..] == [] && rest + k == k;
      }
      EntryIdle(es[0], more, action, end, last, o, rest + k);
    } else {
      UselessBehind(es);
      EntryWithin(es[0], more, action, end, last, o);
      WithinGrows(head.items, last, head.last);
      EntriesIdle(es[1..], action, end, head.last, o, k);
      IdleBehind(head.items, rest + k);
    }
  }

  lemma UselessBehind(es: seq<Entry>)
    requires es != [] && !UsefulEntries(es) && !UselessEntry(es[0], |es| > 1)
    ensures !UsefulEntries(es[1..])
  {
    hide UselessEntry;
    var rest := es[1..];
    var i :| 0 <= i < |es| && UselessEntry(es[i], i < |es| - 1);
    assert rest[i - 1] == es[i] && UselessEntry(rest[i - 1], i - 1 < |rest| - 1);
  }

  lemma GroupIdle(es: seq<Entry>, action: uint32, last: Label, o: Order, k: seq<Item>)
    requires !UsefulEntries(es)
    ensures HasIdle(GroupItems(es, action, last, o).items + k)
  {
    hide EntriesItems, HasIdle, UsefulEntries;
    var a, t := last + 1, [Return(ReturnValue(action)), Mark(last + 2)] + k;
    MarkedHere(a, t, a);
    EntriesIdle(es, a, last + 2, last + 2, o, [Mark(a)] + t);
    assert GroupItems(es, action, last, o).items + k == EntriesItems(es, a, last + 2, last + 2, o).items + ([Mark(a)] + t);
  }

  lemma {:induction false} GroupsIdle(groups: seq<SyscallGroup>, arch: ArchInfo, last: Label, o: Order, k: seq<Item>)
    requires GroupsItems(groups, arch, last, o).Ok? && !Useful(groups, arch)
    ensures HasIdle(GroupsItems(groups, arch, last, o).value.items + k)
  {
    hide GroupItems, HasIdle, MergeGroup, UsefulEntries;
    var g := groups[0];
    var es := MergeGroup(g, arch).entries;
    if EmptyGroup(g) {
      EmptyIsUseful(g, arch);
      UsefulBehind(groups, arch);
      GroupsIdle(groups[1..], arch, last, o, k);
    } else {
      var head := GroupItems(es, g.action, last, o);
      var rest := GroupsItems(groups[1..], arch, head.last, o).value.items;
      Regroup(head.items, rest, k);
      if UsefulEntries(es) {
        UsefulBehind(groups, arch);
        GroupsIdle(groups[1..], arch, head.last, o, k);
        IdleBehind(head.items, rest + k);
      } else {
        GroupIdle(es, g.action, last, o, rest + k);
      }
    }
  }

  lemma EmptyIsUseful(g: SyscallGroup, arch: ArchInfo)
    requires EmptyGroup(g)
    ensures UsefulEntries(MergeGroup(g, arch).entries)
  {}

  lemma UsefulBehind(groups: seq<SyscallGroup>, arch: ArchInfo)
    requires groups != [] && !Useful(groups, arch) && UsefulEntries(MergeGroup(groups[0], arch).entries)
    ensures !Useful(groups[1..], arch)
  {
    hide MergeGroup, UsefulEntries;
    var k :| 0 <= k < |groups| && MergeGroup(groups[k], arch).problems == []
             && !UsefulEntries(MergeGroup(groups[k], arch).entries);
    assert groups[1..][k - 1] == groups[k];
  }

  // ---- in the tables ----

  /** Both ways of jump `q` are the next instruction. */
  predicate IdleJump(c: Code, q: nat)
    requires q < |c.jumps|
  {
    var next := Some(c.jumps[q].index + 1);
    BranchWay(c, q, true) == next && BranchWay(c, q, false) == next
  }

  lemma IdleInTables(pre: seq<Item>, br: Item, rest: seq<Item>)
    requires br.Branch? && Dist(rest, br.onTrue) == 0 == Dist(rest, br.onFalse) && Closed(pre + [br] + rest)
    ensures var c, q := Whole(pre + [br] + rest), |JumpsOf(pre, 0)|; q < |c.jumps| && IdleJump(c, q)
  {
    hide Whole, Closed, Dist, JumpsOf, Size, Way, Marks;
    MarkedBehind(pre, br, rest);
    BranchPlace(pre, br, rest);
    WayOfBranch(pre, br, rest, br.onTrue);
    WayOfBranch(pre, br, rest, br.onFalse);
  }

  lemma PolicyClosed(groups: seq<SyscallGroup>, default: uint32, arch: ArchInfo, o: Order)
    requires GroupsItems(groups, arch, 1, o).Ok?
    ensures Closed(PolicyItems(groups, default, arch, o))
  {
    hide GroupsItems, Closed;
    ClosedReturn(ReturnValue(default));
    GroupsClosed(groups, arch, 1, o, [Return(ReturnValue(default))]);
  }

  lemma PolicyOnward(groups: seq<SyscallGroup>, default: uint32, arch: ArchInfo, o: Order)
    requires GroupsItems(groups, arch, 1, o).Ok?
    ensures AllOnward(Whole(PolicyItems(groups, default, arch, o)), 0)
  {
    hide GroupsItems, Closed, Whole, JumpsOf, Size, Dist, Marks, Onward;
    PolicyClosed(groups, default, arch, o);
    var items := PolicyItems(groups, default, arch, o);
    WholeTables(items, 0);
    forall q | 0 <= q < |Whole(items).jumps| ensures Onward(Whole(items), q) {
      var pre, br, rest := BranchNumber(items, q);
      OnwardInTables(pre, br, rest);
    }
  }

  lemma OnwardInTables(pre: seq<Item>, br: Item, rest: seq<Item>)
    requires br.Branch? && Closed(pre + [br] + rest)
    ensures var c, q := Whole(pre + [br] + rest), |JumpsOf(pre, 0)|; q < |c.jumps| && Onward(c, q)
  {
    hide Whole, Closed, Dist, JumpsOf, Size, Way, Marks;
    MarkedBehind(pre, br, rest);
    BranchPlace(pre, br, rest);
    WayOfBranch(pre, br, rest, br.onTrue);
    WayOfBranch(pre, br, rest, br.onFalse);
  }

  lemma OneOfTwo(e: Option<AsmError>)
    ensures e == None || e == Some(BackwardJump) || e == Some(UselessJump)
  {
    match e
    case None =>
    case Some(BackwardJump) =>
    case Some(UselessJump) =>
  }

  /** The compiler fails for one of two reasons: a group does not merge, or a jump is useless. */
  lemma FilterErrors(groups: seq<SyscallGroup>, default: uint32, arch: ArchInfo, o: Order)
    requires forall k :: 0 <= k < |groups| ==> MergeGroup(groups[k], arch).problems == []
    ensures Filter(groups, default, arch, o).Ok? || Filter(groups, default, arch, o) == Err(NotResolved(UselessJump))
  {
    hide GroupsItems, MergeGroup, AssembleFrom, Whole, Ready, AllOnward, Prologue;
    GroupsMergeIff(groups, arch, 1, o);
    PolicyReady(groups, default, arch, o);
    PolicyOnward(groups, default, arch, o);
    var c := Whole(PolicyItems(groups, default, arch, o));
    NeverBackward(c, 0);
    OneOfTwo(AssembleFrom(c, 0).1);
  }

  // ---- the first check ----

  lemma {:induction false} FirstIdle(groups: seq<SyscallGroup>, arch: ArchInfo, last: Label, o: Order, k: seq<Item>, p: nat)
    requires GroupsItems(groups, arch, last, o).Ok? && p < |groups|
    requires (forall i :: 0 <= i < p ==> EmptyGroup(groups[i])) && !EmptyGroup(groups[p])
    requires var es := MergeGroup(groups[p], arch).entries; |es| > 1 && UselessEntry(es[0], true)
    ensures IdleHead(GroupsItems(groups, arch, last, o).value.items + k)
  {
    hide GroupItems, IdleHead, MergeGroup, UselessEntry;
    if p > 0 {
      assert EmptyGroup(groups[0]) && groups[1..][p - 1] == groups[p];
      FirstIdle(groups[1..], arch, last, o, k, p - 1);
    } else {
      var es := MergeGroup(groups[0], arch).entries;
      var head := GroupItems(es, groups[0].action, last, o);
      var rest := GroupsItems(groups[1..], arch, head.last, o).value.items;
      Regroup(head.items, rest, k);
      GroupFirstIdle(es, groups[0].action, last, o, rest + k);
    }
  }

  lemma GroupFirstIdle(es: seq<Entry>, action: uint32, last: Label, o: Order, k: seq<Item>)
    requires |es| > 1 && UselessEntry(es[0], true)
    ensures IdleHead(GroupItems(es, action, last, o).items + k)
  {
    hide EntryItems, EntriesItems, IdleHead, UselessEntry;
    var a, end := last + 1, last + 2;
    var t := [Mark(a), Return(ReturnValue(action)), Mark(end)];
    var head := EntryItems(es[0], true, a, end, end, o);
    var rest := EntriesItems(es[1..], a, end, head.last, o).items;
    EntriesStart(es, a, end, end, o);
    EntryIdle(es[0], true, a, end, end, o, rest + t + k);
    assert GroupItems(es, action, last, o).items + k == head.items + (rest + t + k);
  }

  lemma IdleTurnFails(c: Code, r: nat)
    requires Ready(c) && r < |c.jumps| && IdleJump(c, r)
    ensures ResolveJump(c, r).1 == Some(UselessJump)
  {
    hide Ready, ResolveJump, Way, Lone;
    TurnFailsIff(c, r);
  }

  lemma FirstTurnFails(c: Code)
    requires Ready(c) && 0 < |c.jumps| && IdleJump(c, 0)
    ensures AssembleFrom(c, 0).1 == Some(UselessJump)
  {
    hide Ready, ResolveJump, IdleJump;
    IdleTurnFails(c, 0);
    AssembleFromStep(c, 0);
  }

  /** However long the policy is, it is rejected when its first entry has alternatives without conditions only, and is not the
      last of its group. */
  lemma UselessFirst(groups: seq<SyscallGroup>, default: uint32, arch: ArchInfo, o: Order, p: nat)
    requires forall k :: 0 <= k < |groups| ==> MergeGroup(groups[k], arch).problems == []
    requires p < |groups| && (forall i :: 0 <= i < p ==> EmptyGroup(groups[i])) && !EmptyGroup(groups[p])
    requires var es := MergeGroup(groups[p], arch).entries; |es| > 1 && es[0].conditions != [] && AllEmpty(es[0].conditions)
    ensures Filter(groups, default, arch, o) == Err(NotResolved(UselessJump))
  {
    hide GroupsItems, MergeGroup, AssembleFrom, Whole, Ready, Closed, IdleJump, Prologue, EmptyGroup, IdleHead;
    GroupsMergeIff(groups, arch, 1, o);
    PolicyReady(groups, default, arch, o);
    PolicyClosed(groups, default, arch, o);
    FirstIdle(groups, arch, 1, o, [Return(ReturnValue(default))], p);
    var items := PolicyItems(groups, default, arch, o);
    HeadInTables(items);
    FirstTurnFails(Whole(items));
  }

  lemma HeadInTables(items: seq<Item>)
    requires IdleHead(items) && Closed(items)
    ensures 0 < |Whole(items).jumps| && IdleJump(Whole(items), 0)
  {
    hide Whole, Closed, Dist, IdleJump;
    var br, rest := items[0], items[1..];
    assert items == [] + [br] + rest;
    assert JumpsOf([], 0) == [];
    IdleInTables([], br, rest);
  }

  // ---- small policies ----

  predicate BothReach(c: Code, q: nat)
    requires q < |c.jumps|
  {
    Reaches(c, q, true, 255) && Reaches(c, q, false, 255)
  }

  /** A turn of a jump that is near both ways and not idle only writes to it. */
  lemma NearTurnKeeps(c: Code, r: nat)
    requires Ready(c) && r < |c.jumps| && BothReach(c, r) && !IdleJump(c, r)
    ensures var (d, e) := ResolveJump(c, r);
            e.None? && Ready(d) && d.jumps == c.jumps && KeepsWays(c, d, c.jumps[r].index)
  {
    hide Ready, Resolve, ResolveJump, Way, Lone, InsertionPoint;
    var j, i := c.jumps[r], c.jumps[r].index;
    TurnFailsIff(c, r);
    WaysAhead(c, r);
    ResolveJumpKeepsReady(c, r);
    ResolvedWay(c, r, j.onTrue, j.onFalse, i);
    ResolveKeepsReady(c, r, j.onTrue);
    var d := Resolve(c, j, j.onTrue).0;
    ResolvedWay(d, r, j.onFalse, j.onFalse, i);
    ResolveKeepsReady(d, r, j.onFalse);
    var e := Resolve(d, j, j.onFalse).0;
    TurnStores(c, r, d, e);
    forall m, k | k >= i ensures Way(ResolveJump(c, r).0, m, k) == Way(c, m, k) {
      ResolvedWay(c, r, j.onTrue, m, k);
      ResolvedWay(d, r, j.onFalse, m, k);
      WaysByLabels(e, ResolveJump(c, r).0, m, k);
    }
  }

  lemma WaysByLabels(c: Code, d: Code, m: Label, k: Index)
    requires d.labels == c.labels
    ensures Way(d, m, k) == Way(c, m, k)
  {}

  lemma IdleLater(c: Code, d: Code, i: Index, q: nat)
    requires d.jumps == c.jumps && KeepsWays(c, d, i) && q < |c.jumps| && c.jumps[q].index >= i
    ensures BothReach(d, q) <==> BothReach(c, q)
    ensures IdleJump(d, q) <==> IdleJump(c, q)
  {
    hide Way;
  }

  ghost predicate AllReach(c: Code, r: nat) { forall q :: r <= q < |c.jumps| ==> BothReach(c, q) }

  ghost predicate SomeIdle(c: Code, r: nat) { exists q :: r <= q < |c.jumps| && IdleJump(c, q) }

  /** When all ways are near, `Assemble` fails if and only if some jump is idle, and then with the useless jump. */
  lemma {:induction false} NearFailsIff(c: Code, r: nat)
    requires Ready(c) && r <= |c.jumps| && AllReach(c, r)
    ensures AssembleFrom(c, r).1 == if SomeIdle(c, r) then Some(UselessJump) else None
    decreases |c.jumps| - r
  {
    hide Ready, ResolveJump, BothReach, IdleJump, KeepsWays;
    if r < |c.jumps| {
      AssembleFromStep(c, r);
      assert BothReach(c, r);
      if IdleJump(c, r) {
        IdleTurnFails(c, r);
      } else {
        NearTurnKeeps(c, r);
        var d := ResolveJump(c, r).0;
        ReadyAscends(c);
        forall q | r < q < |c.jumps|
          ensures BothReach(d, q) <==> BothReach(c, q)
          ensures IdleJump(d, q) <==> IdleJump(c, q)
        {
          IdleLater(c, d, c.jumps[r].index, q);
        }
        NearFailsIff(d, r + 1);
        if q :| r <= q < |c.jumps| && IdleJump(c, q) {
          assert r < q && IdleJump(d, q);
        }
      }
    }
  }

  lemma SmallReach(c: Code, q: nat)
    requires Ready(c) && q < |c.jumps| && Onward(c, q) && |c.instrs| <= 257
    ensures BothReach(c, q)
  {
    hide Ready, Way;
    WayInside(c, c.jumps[q].onTrue, c.jumps[q].index);
    WayInside(c, c.jumps[q].onFalse, c.jumps[q].index);
  }

  lemma IdlePolicy(groups: seq<SyscallGroup>, default: uint32, arch: ArchInfo, o: Order)
    requires GroupsItems(groups, arch, 1, o).Ok? && !Useful(groups, arch)
    ensures SomeIdle(Whole(PolicyItems(groups, default, arch, o)), 0)
  {
    hide GroupsItems, Whole, Closed, Useful, HasIdle, IdleJump, JumpsOf;
    var items := PolicyItems(groups, default, arch, o);
    GroupsIdle(groups, arch, 1, o, [Return(ReturnValue(default))]);
    PolicyClosed(groups, default, arch, o);
    var pre, br, rest := IdleSplit(items);
    IdleInTables(pre, br, rest);
  }

  /** A policy of at most 257 instructions compiles if and only if every group merges and no entry is useless. */
  lemma SmallAcceptsIff(groups: seq<SyscallGroup>, default: uint32, arch: ArchInfo, o: Order)
    requires PolicySize(groups, arch) <= 257
    ensures Filter(groups, default, arch, o).Ok? <==>
            (forall k :: 0 <= k < |groups| ==> MergeGroup(groups[k], arch).problems == []) && Useful(groups, arch)
  {
    hide GroupsItems, MergeGroup, AssembleFrom, Whole, Ready, Useful, Prologue, PolicySize, BothReach, Onward;
    GroupsMergeIff(groups, arch, 1, o);
    if GroupsItems(groups, arch, 1, o).Ok? {
      if Useful(groups, arch) {
        FilterAccepts(groups, default, arch, o);
      } else {
        var c := Whole(PolicyItems(groups, default, arch, o));
        PolicyReady(groups, default, arch, o);
        PolicyOnward(groups, default, arch, o);
        PolicyLength(groups, default, arch, o);
        forall q | 0 <= q < |c.jumps| ensures BothReach(c, q) {
          assert Onward(c, q);
          SmallReach(c, q);
        }
        IdlePolicy(groups, default, arch, o);
        NearFailsIff(c, 0);
      }
    }
  }
}
