/** The exact size of the filter body of a policy of names. */
module Sizes {
  import opened Words
  import opened Bpf
  import opened Labelled
  import opened Assembler
  import opened Resolution
  import opened Preservation
  import opened Policies
  import opened Merge
  import opened Codegen
  import opened CodegenMeaning
  import opened Shapes
  import opened Tameness
  import opened Compiler
  import opened Correctness
  import opened Plain

  /** The early-return copies of a group of `n` names. */
  function Copies(n: nat): nat { if n < 2 then 0 else (n - 2) / 255 }

  // ---- copies made while a stretch of name checks is resolved ----

  /** Jump `q + m` is the name check at `b + m`; it leaves for the return at `b + n`. */
  predicate CheckAt(c: Code, q: nat, b: Index, n: nat, m: nat) {
    && q + m < |c.jumps| && Source(c, q + m) == b + m && Home(c, q + m) == b + n && IsExit(c, q + m, true)
    && b + m < |c.instrs| && c.instrs[b + m].JumpIf?
  }

  /** Jumps `q` to `q + n - 1` are name checks at `b` to `b + n - 1`, all leaving for the return at `b + n`. */
  ghost predicate NameStretch(c: Code, q: nat, b: Index, n: nat) {
    q + n <= |c.jumps| && forall m :: 0 <= m < n ==> CheckAt(c, q, b, n, m)
  }

  /** While the cut lies ahead, no jump needs a copy. */
  lemma {:induction false} NoLeaps(c: Code, q: nat, b: Index, n: nat, m: nat, k: nat)
    requires NameStretch(c, q, b, n) && m <= k <= n
    requires CutAfter(c, q + m) >= b + k || n - m <= 256
    ensures CopiesAfter(c, q + k) == CopiesAfter(c, q + m) && CutAfter(c, q + k) == CutAfter(c, q + m)
    decreases k - m
  {
    hide CutAfter, CopiesAfter, Leaps, CheckAt;
    if m < k {
      NoLeap(c, q, b, n, m, CutAfter(c, q + m));
      CutStep(c, q + m);
      NoLeaps(c, q, b, n, m + 1, k);
    }
  }

  lemma NoLeap(c: Code, q: nat, b: Index, n: nat, m: nat, cut: nat)
    requires q + m < |c.jumps| && CheckAt(c, q, b, n, m) && (cut > b + m || n - m <= 256)
    ensures !Leaps(c, cut, q + m)
  {
    hide NextRet, CopiesAfter, CutAfter;
  }

  lemma CutStep(c: Code, r: nat)
    requires r < |c.jumps|
    ensures !Leaps(c, CutAfter(c, r), r) ==> CutAfter(c, r + 1) == CutAfter(c, r) && CopiesAfter(c, r + 1) == CopiesAfter(c, r)
    ensures Leaps(c, CutAfter(c, r), r) ==>
              CutAfter(c, r + 1) == FarPoint(c, r) + 1 && CopiesAfter(c, r + 1) == CopiesAfter(c, r) + 1
  {
    hide Leaps, FarPoint;
  }

  /** From a jump with every copy behind it, the rest of the stretch gets the copies of a group as long as the rest. */
  lemma {:induction false} StretchCopies(c: Code, q: nat, b: Index, n: nat, m: nat)
    requires NameStretch(c, q, b, n) && m < n && CutAfter(c, q + m) <= b + m
    ensures CopiesAfter(c, q + n) == CopiesAfter(c, q + m) + Copies(n - m)
    ensures CutAfter(c, q + n) <= b + n
    decreases n - m
  {
    hide CutAfter, CopiesAfter, Copies;
    if n - m <= 256 {
      NoLeaps(c, q, b, n, m, n);
      NoCopies(n - m);
    } else {
      CheckLeaps(c, q, b, n, m);
      NoLeaps(c, q, b, n, m + 1, m + 255);
      StretchCopies(c, q, b, n, m + 255);
      OneMoreCopy(n - m);
    }
  }

  lemma NoCopies(n: nat)
    requires n <= 256
    ensures Copies(n) == 0
  {}

  lemma OneMoreCopy(n: nat)
    requires n > 256
    ensures Copies(n) == 1 + Copies(n - 255)
  {}

  /** A check more than 256 in front of the return, with every copy behind it, gets a copy 255 further on. */
  lemma CheckLeaps(c: Code, q: nat, b: Index, n: nat, m: nat)
    requires NameStretch(c, q, b, n) && m < n && CutAfter(c, q + m) <= b + m && n - m > 256
    ensures CutAfter(c, q + m + 1) == b + m + 255
    ensures CopiesAfter(c, q + m + 1) == CopiesAfter(c, q + m) + 1
  {
    assert CheckAt(c, q, b, n, m);
    assert Leaps(c, CutAfter(c, q + m), q + m);
    assert CheckAt(c, q, b, n, m + 254);
    assert FarPoint(c, q + m) == b + m + 254;
  }

  // ---- where the stretches are ----

  predicate AllPlain(es: seq<Entry>) { forall k :: 0 <= k < |es| ==> es[k].conditions == [] }

  lemma {:induction false} PlainSize(es: seq<Entry>)
    requires AllPlain(es)
    ensures EntriesSize(es) == |es|
  {
    if es != [] {
      PlainSize(es[1..]);
    }
  }

  /** The name checks of a group, from any point on, are as many jumps as there are names left. */
  lemma {:induction false} PlainTables(es: seq<Entry>, action: Label, end: Label, last: Label, o: Order, base: Index)
    requires AllPlain(es)
    ensures var items := EntriesItems(es, action, end, last, o).items;
            Size(items) == |es| && |JumpsOf(items, base)| == |es|
  {
    hide EntryItems;
    if es != [] {
      var head := EntryItems(es[0], |es| > 1, action, end, last, o);
      var rest := EntriesItems(es[1..], action, end, head.last, o);
      HeadIsOne(es, action, end, last, o, base);
      PlainTables(es[1..], action, end, head.last, o, base + 1);
      SizeConcat(head.items, rest.items);
      JumpsConcat(head.items, rest.items, base);
    }
  }

  lemma OneCheck(num: uint32, more: bool, action: Label, end: Label, last: Label, base: Index)
    ensures var items := if more then CheckTrue(Test.Equal, num, action, last + 1) else [Branch(Test.Equal, num, action, end)];
            Size(items) == 1 && |JumpsOf(items, base)| == 1
  {
    if more {
      var mark := [Mark(last + 1)];
      OneItem(mark[0]);
      NoBranches(mark, base + 1);
      ItemTables(Branch(Test.Equal, num, action, last + 1), mark, base);
      assert CheckTrue(Test.Equal, num, action, last + 1) == [Branch(Test.Equal, num, action, last + 1)] + mark;
    } else {
      OneItem(Branch(Test.Equal, num, action, end));
      assert [Branch(Test.Equal, num, action, end)][1..] == [];
    }
  }

  /** The first check of a list: one branch, then what belongs to it. */
  lemma FirstCheck(es: seq<Entry>, action: Label, end: Label, last: Label, o: Order) returns (br: Item)
    requires es != [] && es[0].conditions == []
    ensures var head := EntryItems(es[0], |es| > 1, action, end, last, o).items;
            br.Branch? && head == [br] + head[1..] && head != [] && br.onTrue == action && head[0] == br
  {
    br := EntryItems(es[0], |es| > 1, action, end, last, o).items[0];
  }

  lemma PlainEntriesSafe(es: seq<Entry>)
    requires AllPlain(es)
    ensures NonemptyEntries(es) && forall k :: 0 <= k < |es| ==> BlockSize(es[k]) <= 254
  {}

  /** The code from a name check on: as far from the return, and from the action, as there are names left. */
  lemma CheckDistances(es: seq<Entry>, action: Label, end: Label, last: Label, o: Order, k: seq<Item>,
                       br: Item, behind: seq<Item>)
    requires es != [] && AllPlain(es) && action <= last && end <= last
    requires Ahead(k) && LeavesBy(k, action) && RetDist(k) == 0 && Marks(k, end) && Dist(k, end) == 1
    requires br.Branch? && EntriesItems(es, action, end, last, o).items + k == [br] + behind
    ensures RetDist(behind) == |es| - 1 && Dist(behind, action) == |es| - 1
  {
    hide EntriesItems, Ahead, LeavesBy, Marks;
    PlainEntriesSafe(es);
    PlainSize(es);
    EntriesInFront(es, action, end, last, o, k);
    BeforeGives([br] + behind, k, |es|, action);
    assert ([br] + behind)[1..] == behind;
    LeavesAtOnce(k, action);
  }

  lemma LeavesAtOnce(k: seq<Item>, action: Label)
    requires LeavesBy(k, action) && RetDist(k) == 0
    ensures Dist(k, action) == 0
  {}

  /** In the whole program, the checks that follow `pre` form a stretch. */
  lemma NextOfStretch(c: Code, q: nat, b: Index, n: nat, m: nat)
    requires 0 < m < n && CheckAt(c, q + 1, b + 1, n - 1, m - 1)
    ensures CheckAt(c, q, b, n, m)
  {
    hide NextRet;
  }

  lemma FirstOfStretch(pre: seq<Item>, br: Item, behind: seq<Item>, n: nat)
    requires n > 0 && br.Branch? && Shaped(pre + [br] + behind)
    requires RetDist(behind) == n - 1 && Dist(behind, br.onTrue) == n - 1
    ensures CheckAt(Whole(pre + [br] + behind), |JumpsOf(pre, 0)|, Size(pre), n, 0)
  {
    hide Whole, RetDist, Dist, Shaped, JumpsOf, Size, NextRet, TameEdge;
    BranchPlace(pre, br, behind);
    EdgeInTables(pre, br, behind, |JumpsOf(pre, 0)|, true);
  }

  lemma {:induction false} PlainStretch(pre: seq<Item>, es: seq<Entry>, action: Label, end: Label, last: Label, o: Order,
                                        k: seq<Item>, m: nat)
    requires AllPlain(es) && action <= last && end <= last && m < |es|
    requires Ahead(k) && LeavesBy(k, action) && RetDist(k) == 0 && Marks(k, end) && Dist(k, end) == 1
    requires Shaped(pre + (EntriesItems(es, action, end, last, o).items + k))
    ensures CheckAt(Whole(pre + (EntriesItems(es, action, end, last, o).items + k)), |JumpsOf(pre, 0)|, Size(pre), |es|, m)
    decreases |es|
  {
    hide EntryItems, Whole, Ahead, LeavesBy, RetDist, Dist, Marks, Shaped, JumpsOf, Size, CheckTrue, CheckAt, Within;
    var more := |es| > 1;
    var items := EntriesItems(es, action, end, last, o).items;
    var head := EntryItems(es[0], more, action, end, last, o);
    var rest := EntriesItems(es[1..], action, end, head.last, o);
    var br := FirstCheck(es, action, end, last, o);
    var behind := head.items[1..] + (rest.items + k);
    assert items + k == [br] + behind;
    assert pre + (items + k) == pre + [br] + behind == (pre + head.items) + (rest.items + k);
    hide EntriesItems, AllPlain;
    if m == 0 {
      CheckDistances(es, action, end, last, o, k, br, behind);
      FirstOfStretch(pre, br, behind, |es|);
    } else {
      EntryWithin(es[0], more, action, end, last, o);
      WithinGrows(head.items, last, head.last);
      JumpsConcat(pre, head.items, 0);
      SizeConcat(pre, head.items);
      HeadIsOne(es, action, end, last, o, Size(pre));
      PlainStretch(pre + head.items, es[1..], action, end, head.last, o, k, m - 1);
      NextOfStretch(Whole(pre + (items + k)), |JumpsOf(pre, 0)|, Size(pre), |es|, m);
    }
  }

  lemma HeadIsOne(es: seq<Entry>, action: Label, end: Label, last: Label, o: Order, base: Index)
    requires es != [] && es[0].conditions == []
    ensures var head := EntryItems(es[0], |es| > 1, action, end, last, o).items; Size(head) == 1 && |JumpsOf(head, base)| == 1
  {
    OneCheck(es[0].num, |es| > 1, action, end, last, base);
  }

  lemma BranchPlace(pre: seq<Item>, br: Item, rest: seq<Item>)
    requires br.Branch?
    ensures var c, q := Whole(pre + [br] + rest), |JumpsOf(pre, 0)|;
            && q < |c.jumps| && c.jumps[q] == JumpRef(Size(pre), br.onTrue, br.onFalse)
            && Size(pre) < |c.instrs| && c.instrs[Size(pre)].JumpIf?
  {
    hide Whole, JumpsOf, Size;
    var tail := [br] + rest;
    assert pre + [br] + rest == pre + tail;
    WholeTables(pre + tail, 0);
    JumpsConcat(pre, tail, 0);
    HeadTables(br, rest, Size(pre));
    TablesAt(pre, br, rest);
  }

  // ---- whole policies ----

  /** The body of a policy of names: each nonempty group takes its names, one return and its copies; the default return
      is last. */
  function NamesLength(groups: seq<SyscallGroup>): nat {
    if groups == [] then 1
    else
      var n := |groups[0].names|;
      (if n == 0 then 0 else n + 1 + Copies(n)) + NamesLength(groups[1..])
  }

  /** The instructions of the items, and the copies their jumps get. */
  lemma {:induction false} GroupsCopies(pre: seq<Item>, groups: seq<SyscallGroup>, arch: ArchInfo, last: Label, o: Order,
                                        ret: uint32)
    requires NamesOnly(groups, arch) && GroupsItems(groups, arch, last, o).Ok?
    requires Shaped(pre + (GroupsItems(groups, arch, last, o).value.items + [Return(ret)]))
    requires var c := Whole(pre + (GroupsItems(groups, arch, last, o).value.items + [Return(ret)]));
             |JumpsOf(pre, 0)| <= |c.jumps| && CutAfter(c, |JumpsOf(pre, 0)|) <= Size(pre)
    ensures var c := Whole(pre + (GroupsItems(groups, arch, last, o).value.items + [Return(ret)]));
            |c.instrs| + CopiesAfter(c, |c.jumps|) == Size(pre) + CopiesAfter(c, |JumpsOf(pre, 0)|) + NamesLength(groups)
    decreases |groups|
  {
    hide GroupItems, MergeGroup, Shaped, Whole, NamesOnly, CutAfter, CopiesAfter;
    var tail := [Return(ret)];
    if groups == [] {
      assert [] + tail == tail;
      LastReturn(pre, ret);
    } else {
      NamesTail(groups, arch);
      if EmptyGroup(groups[0]) {
        GroupsCopies(pre, groups[1..], arch, last, o, ret);
      } else {
        var es := MergeGroup(groups[0], arch).entries;
        var head := GroupItems(es, groups[0].action, last, o);
        var rest := GroupsItems(groups[1..], arch, head.last, o).value.items;
        assert pre + (head.items + rest + tail) == pre + (head.items + (rest + tail)) == (pre + head.items) + (rest + tail);
        OneGroup(pre, es, groups[0].action, last, o, rest + tail);
        GroupsCopies(pre + head.items, groups[1..], arch, head.last, o, ret);
      }
    }
  }

  lemma NamesTail(groups: seq<SyscallGroup>, arch: ArchInfo)
    requires groups != [] && NamesOnly(groups, arch)
    ensures NamesOnly(groups[1..], arch)
    ensures var es := MergeGroup(groups[0], arch).entries;
            AllPlain(es) && |es| == |groups[0].names| && groups[0].withConditions == []
            && (!EmptyGroup(groups[0]) ==> es != [])
  {
    hide MergeGroup;
    NamesOnlyEntries(groups[0], arch);
  }

  lemma LastReturn(pre: seq<Item>, ret: uint32)
    ensures var c := Whole(pre + [Return(ret)]);
            |c.instrs| == Size(pre) + 1 && |c.jumps| == |JumpsOf(pre, 0)|
  {
    WholeTables(pre + [Return(ret)], 0);
    SizeConcat(pre, [Return(ret)]);
    JumpsConcat(pre, [Return(ret)], 0);
    assert [Return(ret)][1..] == [];
  }

  /** One group of names in a whole program. */
  lemma OneGroup(pre: seq<Item>, es: seq<Entry>, action: uint32, last: Label, o: Order, k: seq<Item>)
    requires es != [] && AllPlain(es)
    requires Shaped(pre + (GroupItems(es, action, last, o).items + k))
    requires var c := Whole(pre + (GroupItems(es, action, last, o).items + k));
             |JumpsOf(pre, 0)| <= |c.jumps| && CutAfter(c, |JumpsOf(pre, 0)|) <= Size(pre)
    ensures var c := Whole(pre + (GroupItems(es, action, last, o).items + k));
            var pre' := pre + GroupItems(es, action, last, o).items;
            && Size(pre') == Size(pre) + |es| + 1
            && |JumpsOf(pre', 0)| == |JumpsOf(pre, 0)| + |es| <= |c.jumps|
            && CopiesAfter(c, |JumpsOf(pre', 0)|) == CopiesAfter(c, |JumpsOf(pre, 0)|) + Copies(|es|)
            && CutAfter(c, |JumpsOf(pre', 0)|) <= Size(pre')
  {
    hide EntriesItems, Shaped, Whole, CutAfter, CopiesAfter, Good;
    var body := EntriesItems(es, last + 1, last + 2, last + 2, o);
    var t := [Mark(last + 1), Return(ReturnValue(action)), Mark(last + 2)];
    var items := GroupItems(es, action, last, o).items;
    var all := pre + (items + k);
    assert all == pre + (body.items + (t + k)) == (pre + body.items) + (t + k);
    GoodOf(all);
    assert all == (pre + body.items + t) + k;
    GoodSuffix(pre + body.items + t, k);
    TailAhead(last + 1, ReturnValue(action), last + 2, k);
    GroupTables(pre, body.items, t, k, es, last, o);
    var c, q := Whole(all), |JumpsOf(pre, 0)|;
    forall m | 0 <= m < |es| ensures CheckAt(c, q, Size(pre), |es|, m) {
      PlainStretch(pre, es, last + 1, last + 2, last + 2, o, t + k, m);
    }
    StretchCopies(c, q, Size(pre), |es|, 0);
  }

  lemma GoodOf(items: seq<Item>)
    requires Shaped(items)
    ensures Good(items)
  {}

  lemma EndTables(t: seq<Item>, at: nat)
    requires |t| == 3 && t[0].Mark? && t[1].Return? && t[2].Mark?
    ensures Size(t) == 1 && JumpsOf(t, at) == []
  {
    NoBranches(t, at);
    var t1 := t[1..];
    assert t == [t[0]] + t1 && t1 == [t[1]] + t1[1..] && t1[1..] == [t[2]];
    hide JumpsOf;
    assert Size([t[2]]) == 0;
    assert Size(t1) == 1;
  }

  lemma GroupTables(pre: seq<Item>, body: seq<Item>, t: seq<Item>, k: seq<Item>, es: seq<Entry>, last: Label, o: Order)
    requires AllPlain(es) && body == EntriesItems(es, last + 1, last + 2, last + 2, o).items
    requires |t| == 3 && t[0].Mark? && t[1].Return? && t[2].Mark?
    ensures Size(pre + (body + t)) == Size(pre) + |es| + 1
    ensures |JumpsOf(pre + (body + t), 0)| == |JumpsOf(pre, 0)| + |es|
    ensures |JumpsOf(pre, 0)| + |es| <= |Whole(pre + (body + (t + k))).jumps|
  {
    EndTables(t, Size(pre) + Size(body));
    hide EntriesItems, Whole, Size, JumpsOf, AllPlain;
    PlainTables(es, last + 1, last + 2, last + 2, o, Size(pre));
    SizeConcat(pre, body + t);
    SizeConcat(body, t);
    JumpsConcat(pre, body + t, 0);
    JumpsConcat(body, t, Size(pre));
    JumpsFirst(pre, body, t, k);
  }

  lemma JumpsFirst(pre: seq<Item>, body: seq<Item>, t: seq<Item>, k: seq<Item>)
    ensures |JumpsOf(pre + (body + t), 0)| <= |Whole(pre + (body + (t + k))).jumps|
  {
    hide Whole, JumpsOf, Size;
    assert pre + (body + (t + k)) == (pre + (body + t)) + k;
    WholeTables((pre + (body + t)) + k, 0);
    JumpsConcat(pre + (body + t), k, 0);
  }

  lemma {:induction false} NoBranches(items: seq<Item>, base: Index)
    requires forall i :: 0 <= i < |items| ==> !items[i].Branch?
    ensures JumpsOf(items, base) == []
  {
    if items != [] {
      NoBranches(items[1..], base + Emits(items[0]));
    }
  }

  /** Exact size: the resolved body of a policy of names has, for every nonempty group of `n` names, `n` checks, one return
      and `(n - 2) / 255` copies of it (none for a single name), and one instruction more. */
  lemma NamesOnlySize(groups: seq<SyscallGroup>, default: uint32, arch: ArchInfo, o: Order)
    requires NamesOnly(groups, arch)
    ensures GroupsItems(groups, arch, 1, o).Ok? && Ready(Whole(PolicyItems(groups, default, arch, o)))
    ensures |AssembleFrom(Whole(PolicyItems(groups, default, arch, o)), 0).0.instrs| == NamesLength(groups)
  {
    hide GroupsItems, SafeGroups, Whole, Ready, Tame, Shaped, AssembleFrom, NamesOnly, Valid;
    NamesOnlyComparisons(groups, arch);
    PolicyShaped(groups, default, arch, o);
    PolicyTame(groups, default, arch, o);
    var items := PolicyItems(groups, default, arch, o);
    ResolutionIsValid(Whole(items));
    assert [] + items == items;
    GroupsCopies([], groups, arch, 1, o, ReturnValue(default));
  }
}
