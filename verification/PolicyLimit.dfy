/** Policies with conditional system calls of any length that are still compiled right: those whose branches are near, but for
    one. A limit on the size of the whole policy follows, and it is exact. */
module PolicyLimit {
  import opened Words
  import opened Bpf
  import opened Labelled
  import opened Assembler
  import opened Insertion
  import opened Preservation
  import opened Policies
  import opened Merge
  import opened Codegen
  import opened Compiler
  import opened Correctness
  import opened Acceptance
  import opened Turns
  import opened Nearby
  import opened BlockLimit

  // ---- from the tables to the verdict ----

  lemma EvaluableGiven(groups: seq<SyscallGroup>, arch: ArchInfo)
    requires Evaluable(groups, arch)
    ensures NonemptyConditions(groups)
  {
    hide MergeGroup, ConditionsGiven;
    forall k | 0 <= k < |groups| ensures ConditionsGiven(groups[k]) {
      assert EvaluableGroup(groups[k], arch);
      GroupGiven(groups[k], arch);
    }
  }

  lemma GroupGiven(g: SyscallGroup, arch: ArchInfo)
    requires EvaluableGroup(g, arch)
    ensures ConditionsGiven(g)
  {
    hide MergeConditionals;
    var ncs := g.withConditions;
    MergedForm(arch, g.names, ncs);
    forall i | 0 <= i < |ncs| ensures ncs[i].conditions != [] {
      var num := Number(arch, ncs[i].name);
      assert NumbersOf(arch, ncs)[i] == num;
      FirstOccurrencesSame(NumbersOf(arch, ncs));
      var nums, cs := FirstOccurrences(NumbersOf(arch, ncs)), ConditionalEntries(arch, ncs);
      assert num in nums;
      var k :| 0 <= k < |nums| && nums[k] == num;
      assert cs[k] == Entry(num, SetsFor(arch, ncs, num));
      assert NamedWith(arch, ncs[i], num);
      SetsForMeans(arch, ncs, num, ncs[i].conditions);
      var m :| 0 <= m < |cs[k].conditions| && cs[k].conditions[m] == ncs[i].conditions;
      assert MergeGroup(g, arch).entries[|PlainEntries(arch, g.names)| + k] == cs[k];
    }
  }

  /** Where resolution keeps the meaning of the tables, the filter returns the evaluator's verdict. */
  lemma MeaningGivesVerdict(groups: seq<SyscallGroup>, default: uint32, arch: ArchInfo, o: Order)
    requires Evaluable(groups, arch) && 3 * PolicySize(groups, arch) + 6 < TWO_TO_32 && GroupsItems(groups, arch, 1, o).Ok?
    requires var c := Whole(PolicyItems(groups, default, arch, o));
             && Ready(c) && AssembleFrom(c, 0).1.None?
             && forall acc: uint32, env :: Run(AssembleFrom(c, 0).0.instrs, acc, env) == RunLabelled(c, 0, acc, env)
    ensures Faithful(groups, default, arch, o)
  {
    hide GroupsItems, Evaluable, Whole, AssembleFrom, Ready, Run, RunLabelled, EnvOf, Prologue, FilterVerdict, PolicySize, Exec;
    var items := PolicyItems(groups, default, arch, o);
    EvaluableGiven(groups, arch);
    FilterIs(groups, default, arch, o, AssembleFrom(Whole(items), 0).0);
    var body := FilterBody(groups, default, arch, o);
    forall acc: uint32, d: SeccompData
      ensures Run(Filter(groups, default, arch, o).value, acc, EnvOf(d, o)) == Verdict(FilterVerdict(groups, default, arch, d))
    {
      PrologueRuns(arch, body, d, o, acc);
      TablesMeanItems([], items, d.nr, EnvOf(d, o));
      assert [] + items == items;
      GroupsExec(groups, default, arch, 1, o, d.nr, d);
      VerdictIs(groups, default, arch, d);
    }
  }

  lemma VerdictIs(groups: seq<SyscallGroup>, default: uint32, arch: ArchInfo, d: SeccompData)
    requires Evaluable(groups, arch)
    ensures FilterVerdict(groups, default, arch, d)
            == if d.arch != arch.id then ReturnValue(default)
               else if arch.id == X86_64_ID && d.nr >= X32_SYSCALL_BIT then ACTION_ERRNO + ENOSYS
               else ThreadGroups(groups, default, arch, d.nr, d)
  {}

  lemma {:induction false} NoJumpsBuilt(items: seq<Item>)
    ensures NoLongJump(InstrsOf(items))
  {
    if items != [] {
      NoJumpsBuilt(items[1..]);
    }
  }

  // ---- the first jump ----

  /** The code starts with a check. Its false branch is near; and a load follows, or its true branch leads into the code in front
      of `k`. */
  predicate StartsWithCheck(items: seq<Item>, k: seq<Item>) {
    && items != [] && items[0].Branch?
    && var rest := items[1..];
       && Marks(rest, items[0].onFalse) && Dist(rest, items[0].onFalse) <= 1
       && (|| (|rest| >= 2 && rest[0].Mark? && rest[1].Load?)
           || (Marks(rest, items[0].onTrue) && Dist(rest, items[0].onTrue) + Size(k) < Size(rest)))
  }

  lemma {:induction false} DistAtMost(a: seq<Item>, l: Label, k: seq<Item>)
    ensures Marks(a + ([Mark(l)] + k), l) && Dist(a + ([Mark(l)] + k), l) <= Size(a)
  {
    var all := a + ([Mark(l)] + k);
    assert all[|a|] == Mark(l);
    if a != [] && a[0] != Mark(l) {
      assert all[1..] == a[1..] + ([Mark(l)] + k);
      DistAtMost(a[1..], l, k);
    }
  }

  lemma GroupStarts(es: seq<Entry>, action: uint32, last: Label, o: Order, k: seq<Item>)
    requires es != [] && NonemptyEntries(es)
    ensures StartsWithCheck(GroupItems(es, action, last, o).items + k, k)
  {
    hide EntriesItems, SetsItems, Dist, Marks, Size, ReturnValue;
    var a, end, ret := last + 1, last + 2, Return(ReturnValue(action));
    var t := [Mark(a)] + ([ret] + ([Mark(end)] + k));
    var head := EntryItems(es[0], |es| > 1, a, end, end, o);
    var more := EntriesItems(es[1..], a, end, head.last, o).items;
    var all := GroupItems(es, action, last, o).items + k;
    EntriesStart(es, a, end, end, o);
    NoMore(es, a, end, head.last, o);
    assert all == head.items + (more + t);
    if es[0].conditions == [] {
      PlainStarts(es[0], |es| > 1, a, end, end, o, more, ret, k);
    } else {
      ConditionalStarts(es[0], |es| > 1, a, end, end, o, more + t);
    }
  }

  lemma EntriesStart(es: seq<Entry>, action: Label, end: Label, last: Label, o: Order)
    requires es != []
    ensures var head := EntryItems(es[0], |es| > 1, action, end, last, o);
            EntriesItems(es, action, end, last, o).items == head.items + EntriesItems(es[1..], action, end, head.last, o).items
  {}

  lemma NoMore(es: seq<Entry>, action: Label, end: Label, last: Label, o: Order)
    requires es != []
    ensures |es| == 1 ==> EntriesItems(es[1..], action, end, last, o).items == []
  {}

  lemma PlainStarts(e: Entry, more: bool, action: Label, end: Label, last: Label, o: Order, others: seq<Item>, ret: Item,
                    k: seq<Item>)
    requires e.conditions == [] && ret.Return? && (!more ==> others == [])
    ensures var t := [Mark(action)] + ([ret] + ([Mark(end)] + k));
            StartsWithCheck(EntryItems(e, more, action, end, last, o).items + (others + t), k)
  {
    hide StartsWithCheck;
    var t := [Mark(action)] + ([ret] + ([Mark(end)] + k));
    var items := EntryItems(e, more, action, end, last, o).items + (others + t);
    if more {
      var br := Branch(Test.Equal, e.num, action, last + 1);
      NameStarts(br, others, ret, end, k);
      assert items == [br] + ([Mark(last + 1)] + (others + t));
    } else {
      var br := Branch(Test.Equal, e.num, action, end);
      LastNameStarts(br, ret, k);
      assert items == [br] + t;
    }
  }

  lemma NameStarts(br: Item, others: seq<Item>, ret: Item, end: Label, k: seq<Item>)
    requires br.Branch? && ret.Return?
    ensures StartsWithCheck([br] + ([Mark(br.onFalse)] + (others + ([Mark(br.onTrue)] + ([ret] + ([Mark(end)] + k))))), k)
  {
    hide Dist, Marks, Size;
    var behind := [ret] + ([Mark(end)] + k);
    var t := [Mark(br.onTrue)] + behind;
    var front := [Mark(br.onFalse)] + others;
    var rest := [Mark(br.onFalse)] + (others + t);
    assert ([br] + rest)[1..] == rest == front + t;
    HereFirst(rest, br.onFalse);
    DistAtMost(front, br.onTrue, behind);
    SizeConcat(front, t);
    EndSize(br.onTrue, ret, end, k);
  }

  lemma EndSize(action: Label, ret: Item, end: Label, k: seq<Item>)
    requires ret.Return?
    ensures Size([Mark(action)] + ([ret] + ([Mark(end)] + k))) == 1 + Size(k)
  {
    hide Size;
    ItemTables(Mark(end), k, 0);
    ItemTables(ret, [Mark(end)] + k, 0);
    ItemTables(Mark(action), [ret] + ([Mark(end)] + k), 0);
  }

  lemma LastNameStarts(br: Item, ret: Item, k: seq<Item>)
    requires br.Branch? && ret.Return?
    ensures StartsWithCheck([br] + ([Mark(br.onTrue)] + ([ret] + ([Mark(br.onFalse)] + k))), k)
  {
    hide Dist, Marks, Size;
    var front := [Mark(br.onTrue), ret];
    var rest := [Mark(br.onTrue)] + ([ret] + ([Mark(br.onFalse)] + k));
    assert ([br] + rest)[1..] == rest == front + ([Mark(br.onFalse)] + k);
    HereFirst(rest, br.onTrue);
    DistAtMost(front, br.onFalse, k);
    TwoSize(front[0], ret);
    EndSize(br.onTrue, ret, br.onFalse, k);
  }

  lemma ConditionalStarts(e: Entry, more: bool, action: Label, end: Label, last: Label, o: Order, behind: seq<Item>)
    requires e.conditions != [] && NonemptySets(e.conditions)
    ensures forall k :: StartsWithCheck(EntryItems(e, more, action, end, last, o).items + behind, k)
  {
    hide Dist, Marks, Size, SetsItems, Bounds, MarkIf;
    var next := if more then last + 1 else end;
    var first := (if more then last + 1 else last) + 1;
    var sets := SetsItems(e.conditions, action, next, first, o).items;
    SetsBounds(e.conditions, action, next, first, o);
    BoundsLoad(sets);
    var all := EntryItems(e, more, action, end, last, o).items + behind;
    assert all[1..] == [Mark(first)] + (sets + MarkIf(more, next) + behind);
    HereFirst(all[1..], first);
  }

  lemma BoundsLoad(items: seq<Item>)
    requires Bounds(items)
    ensures items != [] && items[0].Load?
  {}

  /** A policy whose groups are not all empty starts with a check, and its default return is not part of the first group. */
  lemma {:induction false} PolicyStarts(groups: seq<SyscallGroup>, arch: ArchInfo, last: Label, o: Order, ret: Item)
    returns (k: seq<Item>)
    requires Evaluable(groups, arch) && ret.Return?
    ensures GroupsItems(groups, arch, last, o).Ok?
    ensures var items := GroupsItems(groups, arch, last, o).value.items + [ret];
            items == [ret] || (StartsWithCheck(items, k) && Size(k) > 0)
  {
    hide GroupItems, MergeGroup, Evaluable, EvaluableGroup, StartsWithCheck, Size;
    k := [ret];
    if groups == [] {
      assert [] + [ret] == [ret];
    } else {
      EvaluableTail(groups, arch);
      if EmptyGroup(groups[0]) {
        k := PolicyStarts(groups[1..], arch, last, o, ret);
      } else {
        EntriesOf(groups[0], arch);
        var es := MergeGroup(groups[0], arch).entries;
        GroupsMerge(groups, arch, last, o);
        var head := GroupItems(es, groups[0].action, last, o);
        var rest := GroupsItems(groups[1..], arch, head.last, o).value.items;
        k := rest + [ret];
        GroupStarts(es, groups[0].action, last, o, k);
        assert head.items + rest + [ret] == head.items + k;
        SizeConcat(rest, [ret]);
        OneItem(ret);
      }
    }
  }

  lemma FirstInTables(items: seq<Item>, k: seq<Item>)
    requires StartsWithCheck(items, k)
    ensures var c := Whole(items);
            && 1 <= |c.jumps| && c.jumps[0].index == 0 && Reaches(c, 0, false, 1)
            && (|| (1 < |c.instrs| && c.instrs[1].LoadAbsolute?)
                || (BranchWay(c, 0, true).Some? && BranchWay(c, 0, true).value + Size(k) < |c.instrs|))
  {
    hide Whole, Dist, Marks, Size, Way, JumpsOf, InstrsOf;
    var br, rest := items[0], items[1..];
    assert items == [br] + rest == [] + [br] + rest;
    WholeTables(items, 0);
    ItemTables(br, rest, 0);
    EmptySize();
    WayOfBranch([], br, rest, br.onFalse);
    if Marks(rest, br.onTrue) {
      WayOfBranch([], br, rest, br.onTrue);
    }
    if |rest| >= 2 && rest[0].Mark? && rest[1].Load? {
      assert items == [br, rest[0]] + [rest[1]] + rest[2..];
      TwoSize(br, rest[0]);
      TablesAt([br, rest[0]], rest[1], rest[2..]);
    }
  }

  // ---- policies with at most one far branch ----

  /** No branch of the policy is far, or only the true one of its first instruction; then the others leave room for one more
      instruction. */
  ghost predicate AtMostFirstFar(c: Code) { AllWithin(c, 0, |c.jumps|, 255) || OnlyFar(c, 0) }

  /** The filter of such a policy returns the evaluator's verdict on every record, however long its conditional system calls
      are. */
  lemma FirstFarIsFaithful(groups: seq<SyscallGroup>, default: uint32, arch: ArchInfo, o: Order)
    requires Evaluable(groups, arch) && 3 * PolicySize(groups, arch) + 6 < TWO_TO_32
    requires GroupsItems(groups, arch, 1, o).Ok? && AtMostFirstFar(Whole(PolicyItems(groups, default, arch, o)))
    ensures Faithful(groups, default, arch, o)
  {
    hide GroupsItems, Evaluable, Whole, AssembleFrom, Ready, Run, RunLabelled, Sound, AllWithin, Faithful, PolicySize,
      StartsWithCheck, NoLongJump, Reaches;
    var items := PolicyItems(groups, default, arch, o);
    var c := Whole(items);
    PolicySound(groups, default, arch, o);
    NoJumpsBuilt(items);
    WholeTables(items, 0);
    PolicyLength(groups, default, arch, o);
    var k := PolicyStarts(groups, arch, 1, o, Return(ReturnValue(default)));
    if OnlyFar(c, 0) {
      CheckIsFirst(items, k);
    }
    FirstFarMeans(c, 0, Env([], LittleEndian));
    forall acc: uint32, env ensures Run(AssembleFrom(c, 0).0.instrs, acc, env) == RunLabelled(c, 0, acc, env) {
      FirstFarMeans(c, acc, env);
    }
    MeaningGivesVerdict(groups, default, arch, o);
  }

  lemma FirstFarMeans(c: Code, acc: uint32, env: Env)
    requires Ready(c) && Sound(c) && NoLongJump(c.instrs) && |c.instrs| < TWO_TO_32 - 1 && AtMostFirstFar(c)
    requires OnlyFar(c, 0) ==> c.jumps[0].index == 0
    ensures AssembleFrom(c, 0).1.None?
    ensures Run(AssembleFrom(c, 0).0.instrs, acc, env) == RunLabelled(c, 0, acc, env)
  {
    hide Ready, Sound, NoLongJump, AssembleFrom, Run, RunLabelled, AllWithin, FarTrue;
    if OnlyFar(c, 0) {
      LoneFarKeepsMeaning(c, acc, env);
    } else {
      NearKeepsMeaning(c, acc, env);
    }
  }

  lemma PolicyLength(groups: seq<SyscallGroup>, default: uint32, arch: ArchInfo, o: Order)
    requires GroupsItems(groups, arch, 1, o).Ok?
    ensures |Whole(PolicyItems(groups, default, arch, o)).instrs| == PolicySize(groups, arch)
  {
    hide GroupsItems, Whole, PolicySize;
    WholeTables(PolicyItems(groups, default, arch, o), 0);
    GroupsItemsSize(groups, arch, 1, o);
    SizeConcat(GroupsItems(groups, arch, 1, o).value.items, [Return(ReturnValue(default))]);
    OneItem(Return(ReturnValue(default)));
  }

  lemma CheckIsFirst(items: seq<Item>, k: seq<Item>)
    requires |Whole(items).jumps| > 0 && ((|items| == 1 && items[0].Return?) || StartsWithCheck(items, k))
    ensures Whole(items).jumps[0].index == 0
  {
    hide StartsWithCheck, Whole;
    if StartsWithCheck(items, k) {
      FirstInTables(items, k);
    } else {
      WholeTables(items, 0);
    }
  }

  // ---- small policies ----

  lemma OpenWays(c: Code, q: nat)
    requires Ready(c) && Open(c, 0, q)
    ensures q < |c.jumps| && BranchWay(c, q, true) != BranchWay(c, q, false)
    ensures forall b :: BranchWay(c, q, b).Some? && BranchWay(c, q, b).value < |c.instrs|
  {
    hide Ready, Way;
    WayInside(c, c.jumps[q].onTrue, c.jumps[q].index);
    WayInside(c, c.jumps[q].onFalse, c.jumps[q].index);
  }

  lemma LaterIsNear(c: Code, q: nat, n: nat)
    requires Ready(c) && Open(c, 0, q) && |c.instrs| <= c.jumps[q].index + n + 2
    ensures Near(c, q, n)
  {
    hide Ready, Way, Open;
    OpenWays(c, q);
  }

  /** In a policy of at most 258 instructions only the number check of the first system call can be far, and only if a load
      follows it. */
  lemma SmallIsNear(groups: seq<SyscallGroup>, default: uint32, arch: ArchInfo, o: Order)
    requires Evaluable(groups, arch) && PolicySize(groups, arch) <= 258
    ensures GroupsItems(groups, arch, 1, o).Ok?
    ensures AtMostFirstFar(Whole(PolicyItems(groups, default, arch, o)))
  {
    hide GroupsItems, Evaluable, PolicySize, Whole, Ready, Open, StartsWithCheck, Near, Way, Size;
    EvaluableGiven(groups, arch);
    GroupsMerge(groups, arch, 1, o);
    NonemptyIsUseful(groups, arch);
    PolicyOpen(groups, default, arch, o);
    PolicyLength(groups, default, arch, o);
    var items := PolicyItems(groups, default, arch, o);
    var c := Whole(items);
    var k := PolicyStarts(groups, arch, 1, o, Return(ReturnValue(default)));
    if |c.jumps| > 0 {
      NotJustReturn(items, Return(ReturnValue(default)));
      FirstInTables(items, k);
      OpenWays(c, 0);
      JumpsBehind(c);
      if BranchWay(c, 0, true).value <= 256 {
        FirstJumpNear(c);
        forall q | 0 < q < |c.jumps| ensures Near(c, q, 255) {
          LaterIsNear(c, q, 255);
        }
      } else {
        forall q | 0 < q < |c.jumps| ensures Near(c, q, 254) {
          LaterIsNear(c, q, 254);
        }
      }
    }
  }

  lemma NotJustReturn(items: seq<Item>, ret: Item)
    requires |Whole(items).jumps| > 0 && ret.Return?
    ensures items != [ret]
  {
    WholeTables(items, 0);
  }

  lemma FirstJumpNear(c: Code)
    requires Ready(c) && |c.jumps| > 0 && Open(c, 0, 0) && c.jumps[0].index == 0 && Reaches(c, 0, false, 1)
    requires BranchWay(c, 0, true).Some? && BranchWay(c, 0, true).value <= 256
    ensures Near(c, 0, 255)
  {
    hide Ready, Way;
  }

  lemma JumpsBehind(c: Code)
    requires Ready(c)
    ensures forall q :: 0 < q < |c.jumps| ==> 0 < c.jumps[q].index < |c.instrs| && c.instrs[c.jumps[q].index].JumpIf?
  {
    forall q | 0 < q < |c.jumps| ensures 0 < c.jumps[q].index < |c.instrs| && c.instrs[c.jumps[q].index].JumpIf? {
      assert Resolvable(c, c.jumps[q]) && c.jumps[0].index < c.jumps[q].index;
    }
  }

  /** A limit on the size of whole policies makes the filter of every policy faithful on every record if and only if it is at
      most 258. */
  lemma PolicyLimitExact(limit: nat)
    ensures limit <= 258 <==>
            forall groups, default, arch, o :: Evaluable(groups, arch) && PolicySize(groups, arch) <= limit ==>
              Faithful(groups, default, arch, o)
  {
    hide Evaluable, PolicySize, Faithful, Bounded;
    if limit <= 258 {
      forall groups, default, arch, o | Evaluable(groups, arch) && PolicySize(groups, arch) <= limit
        ensures Faithful(groups, default, arch, o)
      {
        SmallIsNear(groups, default, arch, o);
        FirstFarIsFaithful(groups, default, arch, o);
      }
    } else {
      var groups, default, arch := UnfaithfulPolicy(LittleEndian);
    }
  }
}
