/** What the filter of a policy returns, for every record. */
module Correctness {
  import opened Results
  import opened Words
  import opened Bpf
  import opened Labelled
  import opened Assembler
  import opened Resolution
  import opened Preservation
  import opened Policies
  import opened Merge
  import opened Codegen
  import opened CodegenMeaning
  import opened Shapes
  import opened Tameness
  import opened Compiler

  // ---- policies that compile safely ----

  /** The group merges, and no condition set is empty: its comparisons have a verdict. */
  predicate EvaluableGroup(g: SyscallGroup, arch: ArchInfo) {
    MergeGroup(g, arch).problems == [] && NonemptyEntries(MergeGroup(g, arch).entries)
  }

  predicate Evaluable(groups: seq<SyscallGroup>, arch: ArchInfo) {
    forall k :: 0 <= k < |groups| ==> EvaluableGroup(groups[k], arch)
  }

  /** Besides, none of its system calls takes more than `limit` instructions. */
  predicate BoundedGroup(g: SyscallGroup, arch: ArchInfo, limit: nat) {
    && EvaluableGroup(g, arch)
    && forall k :: 0 <= k < |MergeGroup(g, arch).entries| ==> BlockSize(MergeGroup(g, arch).entries[k]) <= limit
  }

  predicate Bounded(groups: seq<SyscallGroup>, arch: ArchInfo, limit: nat) {
    forall k :: 0 <= k < |groups| ==> BoundedGroup(groups[k], arch, limit)
  }

  /** The most instructions a system call may take. The number of system calls and groups is not bounded. */
  const BLOCK_LIMIT := 254

  predicate SafeGroup(g: SyscallGroup, arch: ArchInfo) { BoundedGroup(g, arch, BLOCK_LIMIT) }

  predicate SafeGroups(groups: seq<SyscallGroup>, arch: ArchInfo) { Bounded(groups, arch, BLOCK_LIMIT) }

  lemma SafeTail(groups: seq<SyscallGroup>, arch: ArchInfo)
    requires groups != [] && SafeGroups(groups, arch)
    ensures SafeGroup(groups[0], arch) && SafeGroups(groups[1..], arch)
  {
    hide BoundedGroup;
  }

  lemma SafeIsEvaluable(groups: seq<SyscallGroup>, arch: ArchInfo)
    requires SafeGroups(groups, arch)
    ensures Evaluable(groups, arch)
  {
    hide EvaluableGroup;
    forall k | 0 <= k < |groups| ensures EvaluableGroup(groups[k], arch) {
      assert BoundedGroup(groups[k], arch, BLOCK_LIMIT);
    }
  }

  lemma EvaluableTail(groups: seq<SyscallGroup>, arch: ArchInfo)
    requires groups != [] && Evaluable(groups, arch)
    ensures EvaluableGroup(groups[0], arch) && Evaluable(groups[1..], arch)
  {
    hide EvaluableGroup;
  }

  lemma MergedNonempty(g: SyscallGroup, arch: ArchInfo)
    requires MergeGroup(g, arch).problems == [] && !EmptyGroup(g)
    ensures MergeGroup(g, arch).entries != []
  {
    var ncs := g.withConditions;
    MergedForm(arch, g.names, ncs);
    if ncs != [] {
      FirstOccurrencesSame(NumbersOf(arch, ncs));
      assert NumbersOf(arch, ncs)[0] in NumbersOf(arch, ncs);
    }
  }

  lemma EntriesOf(g: SyscallGroup, arch: ArchInfo)
    requires EvaluableGroup(g, arch)
    ensures var es := MergeGroup(g, arch).entries;
            ValidEntries(es) && NonemptyEntries(es) && (!EmptyGroup(g) ==> es != [])
  {
    hide MergeGroup, ListMatches, GroupMatches, Distinct;
    MergeKeepsMeaning(g, arch, 0, Record(0, 0, 0, [0, 0, 0, 0, 0, 0]));
    if !EmptyGroup(g) {
      MergedNonempty(g, arch);
    }
  }

  lemma SafeEntriesOf(g: SyscallGroup, arch: ArchInfo)
    requires SafeGroup(g, arch)
    ensures var es := MergeGroup(g, arch).entries;
            ValidEntries(es) && NonemptyEntries(es) && (!EmptyGroup(g) ==> es != [])
            && forall k :: 0 <= k < |es| ==> BlockSize(es[k]) <= 254
  {
    EntriesOf(g, arch);
  }

  /** The verdict of the comparisons of all groups, sharing one accumulator that starts as `acc`. */
  function ThreadGroups(groups: seq<SyscallGroup>, default: uint32, arch: ArchInfo, acc: uint32, d: SeccompData): uint32
    requires Evaluable(groups, arch)
  {
    if groups == [] then ReturnValue(default)
    else
      EvaluableTail(groups, arch);
      if EmptyGroup(groups[0]) then ThreadGroups(groups[1..], default, arch, acc, d)
      else
        EntriesOf(groups[0], arch);
        match ThreadEntries(MergeGroup(groups[0], arch).entries, acc, d)
        case Matched => ReturnValue(groups[0].action)
        case Missed(a) => ThreadGroups(groups[1..], default, arch, a, d)
  }

  /** The verdict of the whole filter. */
  function FilterVerdict(groups: seq<SyscallGroup>, default: uint32, arch: ArchInfo, d: SeccompData): uint32
    requires Evaluable(groups, arch)
  {
    if d.arch != arch.id then ReturnValue(default)
    else if arch.id == X86_64_ID && d.nr >= X32_SYSCALL_BIT then ACTION_ERRNO + ENOSYS
    else ThreadGroups(groups, default, arch, d.nr, d)
  }

  // ---- the builder calls of a safe policy ----

  lemma {:induction false} GroupsMerge(groups: seq<SyscallGroup>, arch: ArchInfo, last: Label, o: Order)
    requires Evaluable(groups, arch)
    ensures GroupsItems(groups, arch, last, o).Ok?
  {
    hide GroupItems, Evaluable, MergeGroup;
    if groups != [] {
      EvaluableTail(groups, arch);
      GroupsMerge(groups[1..], arch, last, o);
      GroupsMerge(groups[1..], arch, GroupItems(MergeGroup(groups[0], arch).entries, groups[0].action, last, o).last, o);
    }
  }

  lemma {:induction false} GroupsExec(groups: seq<SyscallGroup>, default: uint32, arch: ArchInfo, last: Label, o: Order,
                                      acc: uint32, d: SeccompData)
    requires Evaluable(groups, arch)
    ensures GroupsItems(groups, arch, last, o).Ok?
    ensures Exec(GroupsItems(groups, arch, last, o).value.items + [Return(ReturnValue(default))], acc, EnvOf(d, o))
            == Verdict(ThreadGroups(groups, default, arch, acc, d))
  {
    hide GroupItems, Evaluable, EvaluableGroup, MergeGroup, EnvOf, ThreadEntries;
    GroupsMerge(groups, arch, last, o);
    var ret := [Return(ReturnValue(default))];
    if groups == [] {
      assert [] + ret == ret;
    } else {
      EvaluableTail(groups, arch);
      if EmptyGroup(groups[0]) {
        GroupsExec(groups[1..], default, arch, last, o, acc, d);
      } else {
        EntriesOf(groups[0], arch);
        var es := MergeGroup(groups[0], arch).entries;
        var head := GroupItems(es, groups[0].action, last, o);
        GroupsMerge(groups[1..], arch, head.last, o);
        var rest := GroupsItems(groups[1..], arch, head.last, o).value.items;
        assert head.items + rest + ret == head.items + (rest + ret);
        GroupExec(es, groups[0].action, last, d, o, rest + ret, acc);
        match ThreadEntries(es, acc, d)
        case Matched =>
        case Missed(a) => GroupsExec(groups[1..], default, arch, head.last, o, a, d);
      }
    }
  }

  lemma {:induction false} GroupsGood(groups: seq<SyscallGroup>, arch: ArchInfo, last: Label, o: Order, k: seq<Item>)
    requires SafeGroups(groups, arch) && Good(k)
    ensures GroupsItems(groups, arch, last, o).Ok?
    ensures Good(GroupsItems(groups, arch, last, o).value.items + k)
  {
    hide GroupItems, SafeGroups, SafeGroup, Evaluable, MergeGroup, Good;
    SafeIsEvaluable(groups, arch);
    GroupsMerge(groups, arch, last, o);
    if groups == [] {
      assert [] + k == k;
    } else {
      SafeTail(groups, arch);
      if EmptyGroup(groups[0]) {
        GroupsGood(groups[1..], arch, last, o, k);
      } else {
        SafeEntriesOf(groups[0], arch);
        var es := MergeGroup(groups[0], arch).entries;
        var head := GroupItems(es, groups[0].action, last, o);
        GroupsGood(groups[1..], arch, head.last, o, k);
        var rest := GroupsItems(groups[1..], arch, head.last, o).value.items;
        assert head.items + rest + k == head.items + (rest + k);
        GroupGood(es, groups[0].action, last, o, rest + k);
      }
    }
  }

  lemma {:induction false} GroupsWithin(groups: seq<SyscallGroup>, arch: ArchInfo, last: Label, o: Order)
    requires GroupsItems(groups, arch, last, o).Ok?
    ensures var e := GroupsItems(groups, arch, last, o).value; Within(e.items, last, e.last)
  {
    hide GroupItems, MergeGroup, Within;
    if groups == [] {
      NothingWithin(last);
    } else if EmptyGroup(groups[0]) {
      GroupsWithin(groups[1..], arch, last, o);
    } else {
      var es := MergeGroup(groups[0], arch).entries;
      var head := GroupItems(es, groups[0].action, last, o);
      var rest := GroupsItems(groups[1..], arch, head.last, o).value;
      GroupWithin(es, groups[0].action, last, o);
      GroupsWithin(groups[1..], arch, head.last, o);
      ConcatWithin(head.items, rest.items, last, head.last, rest.last);
    }
  }

  lemma PolicyShaped(groups: seq<SyscallGroup>, default: uint32, arch: ArchInfo, o: Order)
    requires SafeGroups(groups, arch)
    ensures GroupsItems(groups, arch, 1, o).Ok? && Shaped(PolicyItems(groups, default, arch, o))
  {
    hide GroupsItems, SafeGroups, Good;
    var ret := [Return(ReturnValue(default))];
    assert Good(ret) by { ReturnGood(ReturnValue(default)); }
    GroupsGood(groups, arch, 1, o, ret);
    GroupsWithin(groups, arch, 1, o);
    var items := GroupsItems(groups, arch, 1, o).value.items;
    forall l: Label ensures MarkCount(items + ret, l) <= 1 {
      MarkCountConcat(items, ret, l);
    }
  }

  lemma ReturnGood(v: uint32)
    ensures Good([Return(v)])
  {
    assert [Return(v)][1..] == [];
  }

  // ---- the body ----

  /** The resolved comparisons return what the evaluator says, from any accumulator. */
  lemma BodyCorrect(groups: seq<SyscallGroup>, default: uint32, arch: ArchInfo, o: Order, acc: uint32, d: SeccompData)
    requires SafeGroups(groups, arch)
    ensures GroupsItems(groups, arch, 1, o).Ok? && Ready(Whole(PolicyItems(groups, default, arch, o)))
    ensures var (c, e) := AssembleFrom(Whole(PolicyItems(groups, default, arch, o)), 0);
            e.None? && Run(c.instrs, acc, EnvOf(d, o)) == Verdict(ThreadGroups(groups, default, arch, acc, d))
  {
    hide GroupsItems, SafeGroups, Evaluable, Whole, AssembleFrom, Ready, Tame, Exec, Run, RunLabelled, ThreadGroups, EnvOf,
      Shaped;
    SafeIsEvaluable(groups, arch);
    PolicyShaped(groups, default, arch, o);
    var items := PolicyItems(groups, default, arch, o);
    ShapedIsTame(items);
    PolicyReady(groups, default, arch, o);
    ResolutionKeepsMeaning(Whole(items), acc, EnvOf(d, o));
    TablesMeanItems([], items, acc, EnvOf(d, o));
    assert [] + items == items;
    GroupsExec(groups, default, arch, 1, o, acc, d);
  }

  lemma {:induction false} LoadsOf(items: seq<Item>)
    requires forall k :: 0 <= k < |items| && items[k].Load? ==> items[k].off % 4 == 0 && items[k].off + 4 <= 64
    ensures ValidLoads(InstrsOf(items))
  {
    forall p | 0 <= p < |InstrsOf(items)| ensures ValidLoad(InstrsOf(items)[p]) {
      var pre, it, rest := InstrSplit(items, p);
      assert items[|pre|] == it;
    }
  }

  // ---- the prologue ----

  lemma RunLoad(off: uint32, rest: seq<Instr>, acc: uint32, env: Env)
    requires Fetch(env, off, 4).Some?
    ensures Run([LoadAbsolute(off, 4)] + rest, acc, env) == Run(rest, Fetch(env, off, 4).value, env)
  {
    assert ([LoadAbsolute(off, 4)] + rest)[1..] == rest;
  }

  lemma RunLast(prog: seq<Instr>, at: nat, acc: uint32, env: Env)
    requires prog != [] && prog[|prog| - 1].RetConstant? && at == |prog| - 1
    ensures Run(prog[at..], acc, env) == Verdict(prog[at].ret)
  {}

  lemma RunShortCheck(id: uint32, skip: uint8, main: seq<Instr>, acc: uint32, env: Env)
    requires skip < |main|
    ensures Run([JumpIf(Test.NotEqual, id, skip, 0)] + main, acc, env)
            == if acc != id then Run(main[skip..], acc, env) else Run(main, acc, env)
  {
    var prog := [JumpIf(Test.NotEqual, id, skip, 0)] + main;
    assert prog[1..] == main;
    assert prog[1 + skip..] == main[skip..];
  }

  lemma RunLongCheck(id: uint32, skip: uint32, main: seq<Instr>, acc: uint32, env: Env)
    requires skip < |main|
    ensures Run([JumpIf(Test.Equal, id, 1, 0), Jump(skip)] + main, acc, env)
            == if acc != id then Run(main[skip..], acc, env) else Run(main, acc, env)
  {
    var prog := [JumpIf(Test.Equal, id, 1, 0), Jump(skip)] + main;
    var jump := [Jump(skip)] + main;
    assert prog[2..] == main;
    assert prog[1..] == jump;
    assert jump[1 + skip..] == main[skip..];
  }

  /** Both forms of the prologue, the short and the long one, send a foreign architecture to the last instruction,
      and the right one to the x32 check and the comparisons with the system-call number loaded. */
  lemma PrologueRuns(arch: ArchInfo, instrs: seq<Instr>, d: SeccompData, o: Order, acc: uint32)
    requires instrs != [] && instrs[|instrs| - 1].RetConstant? && |Prologue(arch, instrs)| < TWO_TO_32
    ensures Run(Prologue(arch, instrs), acc, EnvOf(d, o))
            == if d.arch != arch.id then Verdict(instrs[|instrs| - 1].ret)
               else if arch.id == X86_64_ID && d.nr >= X32_SYSCALL_BIT then Verdict(ACTION_ERRNO + ENOSYS)
               else Run(instrs, d.nr, EnvOf(d, o))
  {
    hide EnvOf, Fetch, Run, X32Filter;
    var env := EnvOf(d, o);
    LoadHeader(d, o);
    var x32 := X32Filter(arch);
    var main := [LoadAbsolute(0, 4)] + (x32 + instrs);
    var jumpN := |x32| + |instrs|;
    assert main[|main| - 1] == instrs[|instrs| - 1] && |main| == jumpN + 1;
    RunLoad(0, x32 + instrs, d.arch, env);
    X32Runs(arch, instrs, d, env);
    RunLast(main, jumpN, d.arch, env);
    if jumpN <= 255 {
      var check := [JumpIf(Test.NotEqual, arch.id, jumpN, 0)];
      assert Prologue(arch, instrs) == [LoadAbsolute(4, 4)] + (check + main);
      RunLoad(4, check + main, acc, env);
      RunShortCheck(arch.id, jumpN, main, d.arch, env);
    } else {
      var check := [JumpIf(Test.Equal, arch.id, 1, 0), Jump(jumpN)];
      assert Prologue(arch, instrs) == [LoadAbsolute(4, 4)] + (check + main);
      RunLoad(4, check + main, acc, env);
      RunLongCheck(arch.id, jumpN, main, d.arch, env);
    }
  }

  lemma X32Runs(arch: ArchInfo, instrs: seq<Instr>, d: SeccompData, env: Env)
    requires instrs != []
    ensures Run(X32Filter(arch) + instrs, d.nr, env)
            == if arch.id == X86_64_ID && d.nr >= X32_SYSCALL_BIT then Verdict(ACTION_ERRNO + ENOSYS)
               else Run(instrs, d.nr, env)
  {
    var prog := X32Filter(arch) + instrs;
    if arch.id == X86_64_ID {
      assert prog[1..] == [RetConstant(ACTION_ERRNO + ENOSYS)] + instrs;
      assert prog[2..] == instrs;
    } else {
      assert prog == instrs;
    }
  }

  lemma {:induction false} LongJumpsOf(a: seq<Instr>, b: seq<Instr>)
    ensures NoLongJump(a + b) <==> NoLongJump(a) && NoLongJump(b)
  {
    assert forall p :: 0 <= p < |a| ==> (a + b)[p] == a[p];
    assert forall p :: 0 <= p < |b| ==> (a + b)[|a| + p] == b[p];
  }

  /** In front of a body without long jumps, the prologue needs one if and only if the default return is more than 255
      instructions away. */
  lemma PrologueForm(arch: ArchInfo, instrs: seq<Instr>)
    requires NoLongJump(instrs)
    ensures var x32 := if arch.id == 0xc000_003e then 2 else 0;
            && (NoLongJump(Prologue(arch, instrs)) <==> |instrs| + x32 <= 255)
            && |Prologue(arch, instrs)| == |instrs| + x32 + (if |instrs| + x32 <= 255 then 3 else 4)
  {
    var x32 := X32Filter(arch);
    assert NoLongJump(x32);
    hide X32Filter;
    var jumpN := |x32| + |instrs|;
    var head := if jumpN <= 255 then [LoadAbsolute(4, 4), JumpIf(Test.NotEqual, arch.id, jumpN, 0), LoadAbsolute(0, 4)]
                else [LoadAbsolute(4, 4), JumpIf(Test.Equal, arch.id, 1, 0), Jump(jumpN % TWO_TO_32), LoadAbsolute(0, 4)];
    assert Prologue(arch, instrs) == head + (x32 + instrs);
    assert jumpN > 255 ==> head[2].Jump?;
    LongJumpsOf(x32, instrs);
    LongJumpsOf(head, x32 + instrs);
  }

  // ---- the whole filter ----

  lemma FilterIs(groups: seq<SyscallGroup>, default: uint32, arch: ArchInfo, o: Order, c: Code)
    requires GroupsItems(groups, arch, 1, o).Ok? && Ready(Whole(PolicyItems(groups, default, arch, o)))
    requires AssembleFrom(Whole(PolicyItems(groups, default, arch, o)), 0) == (c, None)
    ensures Filter(groups, default, arch, o) == Ok(Prologue(arch, c.instrs))
  {
    hide GroupsItems, AssembleFrom, Whole, Ready, Prologue;
  }

  lemma PolicyTame(groups: seq<SyscallGroup>, default: uint32, arch: ArchInfo, o: Order)
    requires SafeGroups(groups, arch)
    ensures GroupsItems(groups, arch, 1, o).Ok?
    ensures var c := Whole(PolicyItems(groups, default, arch, o));
            && Tame(c) && Ready(c) && ValidLoads(c.instrs)
            && c.instrs != [] && c.instrs[|c.instrs| - 1] == RetConstant(ReturnValue(default))
  {
    hide GroupsItems, SafeGroups, Whole, Ready, Tame, Shaped;
    PolicyShaped(groups, default, arch, o);
    var items := PolicyItems(groups, default, arch, o);
    ShapedIsTame(items);
    PolicyReady(groups, default, arch, o);
    PolicyLoads(groups, default, arch, o);
    WholeTables(items, 0);
    EndsInReturn(items);
  }

  /** A safe policy compiles to the prologue and a resolved body: valid, without long jumps, and ended by the default return. */
  lemma FilterParts(groups: seq<SyscallGroup>, default: uint32, arch: ArchInfo, o: Order) returns (c: Code)
    requires SafeGroups(groups, arch)
    ensures GroupsItems(groups, arch, 1, o).Ok? && Ready(Whole(PolicyItems(groups, default, arch, o)))
    ensures AssembleFrom(Whole(PolicyItems(groups, default, arch, o)), 0) == (c, None)
    ensures Filter(groups, default, arch, o) == Ok(Prologue(arch, c.instrs))
    ensures c.instrs != [] && c.instrs[|c.instrs| - 1] == RetConstant(ReturnValue(default))
    ensures Valid(c.instrs) && NoLongJump(c.instrs) && ValidLoads(c.instrs)
    ensures var t := Whole(PolicyItems(groups, default, arch, o));
            |c.instrs| == |t.instrs| + CopiesAfter(t, |t.jumps|)
  {
    hide GroupsItems, SafeGroups, AssembleFrom, Whole, Ready, Tame, Prologue, CopiesAfter, Filter, Valid, ValidLoads,
      NoLongJump, PolicyItems;
    PolicyTame(groups, default, arch, o);
    var t := Whole(PolicyItems(groups, default, arch, o));
    ResolutionIsValid(t);
    c := AssembleFrom(t, 0).0;
    NonemptyValid(c.instrs);
    FilterIs(groups, default, arch, o, c);
  }

  lemma PolicyLoads(groups: seq<SyscallGroup>, default: uint32, arch: ArchInfo, o: Order)
    requires SafeGroups(groups, arch) && GroupsItems(groups, arch, 1, o).Ok?
    ensures ValidLoads(InstrsOf(PolicyItems(groups, default, arch, o)))
  {
    hide GroupsItems, SafeGroups, Evaluable;
    SafeIsEvaluable(groups, arch);
    GoodLoads(groups, arch, 1, o);
    var items := GroupsItems(groups, arch, 1, o).value.items;
    var all := PolicyItems(groups, default, arch, o);
    assert forall k :: 0 <= k < |items| ==> all[k] == items[k];
    LoadsOf(all);
  }

  /** Every load of the items is an aligned word inside the record. */
  predicate LoadsInside(items: seq<Item>) {
    forall k :: 0 <= k < |items| && items[k].Load? ==> items[k].off % 4 == 0 && items[k].off + 4 <= 64
  }

  lemma LoadsJoin(a: seq<Item>, b: seq<Item>)
    requires LoadsInside(a) && LoadsInside(b)
    ensures LoadsInside(a + b)
  {}

  lemma LoadsOfOne(off: uint32, br: Item, test: Test, val: uint32, to: Label, next: Label)
    requires br.Branch? && off % 4 == 0 && off + 4 <= 64
    ensures LoadsInside([Labelled.Load(off)]) && LoadsInside([br]) && LoadsInside(CheckTrue(test, val, to, next))
  {}

  lemma ConditionLoads(c: Condition, na: Label, nc: Label, last: Label, o: Order)
    requires c.arg <= 5
    ensures LoadsInside(ConditionItems(c, na, nc, last, o).items)
  {
    hide ConditionItems, HiOffset, LoOffset, Hi, Lo, CheckTrue, LoadsInside;
    ArgumentOffsets(c.arg, o);
    ConditionCases(c, na, nc, last, o);
    var a, b := [Labelled.Load(HiOffset(c.arg, o))], [Labelled.Load(LoOffset(c.arg, o))];
    var br := Branch(LowTest(c.op), Lo(c.value), na, nc);
    var check, check';
    if c.op.Equal? || c.op.NotEqual? || c.op.BitsSet? || c.op.BitsNotSet? {
      var test := if c.op.BitsSet? || c.op.BitsNotSet? then Test.BitsSet else Test.NotEqual;
      var to := if c.op.Equal? || c.op.BitsNotSet? then nc else na;
      check, check' := CheckTrue(test, Hi(c.value), to, last + 1), [];
      LoadsOfOne(HiOffset(c.arg, o), br, test, Hi(c.value), to, last + 1);
    } else {
      var test := if c.op.GreaterThan? || c.op.GreaterOrEqual? then Test.GreaterThan else Test.LessThan;
      check, check' := CheckTrue(test, Hi(c.value), na, last + 1), CheckTrue(Test.NotEqual, Hi(c.value), nc, last + 2);
      LoadsOfOne(HiOffset(c.arg, o), br, test, Hi(c.value), na, last + 1);
      LoadsOfOne(HiOffset(c.arg, o), br, Test.NotEqual, Hi(c.value), nc, last + 2);
      LoadsJoin(a + check, check');
    }
    LoadsOfOne(LoOffset(c.arg, o), br, Test.NotEqual, 0, nc, last + 2);
    LoadsJoin(a, check);
    assert a + check + [] == a + check;
    LoadsJoin(a + check + check', b);
    LoadsJoin(a + check + check' + b, [br]);
  }

  lemma {:induction false} SetLoads(cs: ConditionSet, action: Label, nc: Label, last: Label, o: Order)
    requires ValidSet(cs)
    ensures LoadsInside(SetItems(cs, action, nc, last, o).items)
  {
    hide ConditionItems;
    if cs != [] {
      var more := |cs| > 1;
      var na := if more then last + 1 else action;
      var head := ConditionItems(cs[0], na, nc, if more then last + 1 else last, o);
      ConditionLoads(cs[0], na, nc, if more then last + 1 else last, o);
      SetLoads(cs[1..], action, nc, head.last, o);
    }
  }

  lemma {:induction false} SetsLoads(sets: seq<ConditionSet>, action: Label, next: Label, last: Label, o: Order)
    requires ValidSets(sets)
    ensures LoadsInside(SetsItems(sets, action, next, last, o).items)
  {
    hide SetItems;
    if sets != [] {
      var more := |sets| > 1;
      var nc := if more then last + 1 else next;
      var head := SetItems(sets[0], action, nc, if more then last + 1 else last, o);
      SetLoads(sets[0], action, nc, if more then last + 1 else last, o);
      SetsLoads(sets[1..], action, next, head.last, o);
    }
  }

  lemma EntryLoads(e: Entry, more: bool, action: Label, end: Label, last: Label, o: Order)
    requires ValidSets(e.conditions)
    ensures LoadsInside(EntryItems(e, more, action, end, last, o).items)
  {
    hide SetsItems;
    if e.conditions != [] {
      var next := if more then last + 1 else end;
      var first := (if more then last + 1 else last) + 1;
      SetsLoads(e.conditions, action, next, first, o);
      LoadsJoin(CheckTrue(Test.NotEqual, e.num, next, first), SetsItems(e.conditions, action, next, first, o).items);
    }
  }

  lemma {:induction false} EntriesLoads(es: seq<Entry>, action: Label, end: Label, last: Label, o: Order)
    requires ValidEntries(es)
    ensures LoadsInside(EntriesItems(es, action, end, last, o).items)
  {
    hide EntryItems;
    if es != [] {
      var head := EntryItems(es[0], |es| > 1, action, end, last, o);
      EntryLoads(es[0], |es| > 1, action, end, last, o);
      EntriesLoads(es[1..], action, end, head.last, o);
      LoadsJoin(head.items, EntriesItems(es[1..], action, end, head.last, o).items);
    }
  }

  lemma {:induction false} GoodLoads(groups: seq<SyscallGroup>, arch: ArchInfo, last: Label, o: Order)
    requires Evaluable(groups, arch) && GroupsItems(groups, arch, last, o).Ok?
    ensures LoadsInside(GroupsItems(groups, arch, last, o).value.items)
  {
    hide EntriesItems, Evaluable, EvaluableGroup, MergeGroup;
    if groups != [] {
      EvaluableTail(groups, arch);
      if EmptyGroup(groups[0]) {
        GoodLoads(groups[1..], arch, last, o);
      } else {
        EntriesOf(groups[0], arch);
        var es := MergeGroup(groups[0], arch).entries;
        EntriesLoads(es, last + 1, last + 2, last + 2, o);
        GoodLoads(groups[1..], arch, GroupItems(es, groups[0].action, last, o).last, o);
      }
    }
  }

  // ---- how long it gets ----

  /** The comparisons and returns of a policy, before any copies. */
  function PolicySize(groups: seq<SyscallGroup>, arch: ArchInfo): nat {
    if groups == [] then 1
    else (if EmptyGroup(groups[0]) then 0 else EntriesSize(MergeGroup(groups[0], arch).entries) + 1)
         + PolicySize(groups[1..], arch)
  }

  lemma ConditionItemsSize(c: Condition, na: Label, nc: Label, last: Label, o: Order)
    ensures Size(ConditionItems(c, na, nc, last, o).items) == ConditionSize(c)
  {
    hide ConditionItems, HiOffset, LoOffset, Hi, Lo;
    ConditionCases(c, na, nc, last, o);
    var a, b := [Labelled.Load(HiOffset(c.arg, o))], [Labelled.Load(LoOffset(c.arg, o))];
    var br := [Branch(LowTest(c.op), Lo(c.value), na, nc)];
    if ConditionSize(c) == 4 {
      var test := if c.op.BitsSet? || c.op.BitsNotSet? then Test.BitsSet else Test.NotEqual;
      var to := if c.op.Equal? || c.op.BitsNotSet? then nc else na;
      CheckSize(test, Hi(c.value), to, last + 1);
      var check := CheckTrue(test, Hi(c.value), to, last + 1);
      SizeConcat(a, check);
      SizeConcat(a + check, b);
      SizeConcat(a + check + b, br);
    } else {
      var test := if c.op.GreaterThan? || c.op.GreaterOrEqual? then Test.GreaterThan else Test.LessThan;
      var check, check' := CheckTrue(test, Hi(c.value), na, last + 1), CheckTrue(Test.NotEqual, Hi(c.value), nc, last + 2);
      CheckSize(test, Hi(c.value), na, last + 1);
      CheckSize(Test.NotEqual, Hi(c.value), nc, last + 2);
      SizeConcat(a, check);
      SizeConcat(a + check, check');
      SizeConcat(a + check + check', b);
      SizeConcat(a + check + check' + b, br);
    }
    OneItem(a[0]);
    OneItem(b[0]);
    OneItem(br[0]);
  }

  lemma CheckSize(test: Test, val: uint32, to: Label, next: Label)
    ensures Size(CheckTrue(test, val, to, next)) == 1
  {
    assert CheckTrue(test, val, to, next) == [Branch(test, val, to, next)] + [Mark(next)];
    OneItem(Branch(test, val, to, next));
    OneItem(Mark(next));
    SizeConcat([Branch(test, val, to, next)], [Mark(next)]);
  }

  lemma MarkSize(more: bool, l: Label)
    ensures Size(MarkIf(more, l)) == 0
  {
    OneItem(Mark(l));
  }

  lemma {:induction false} SetItemsSize(cs: ConditionSet, action: Label, nc: Label, last: Label, o: Order)
    ensures Size(SetItems(cs, action, nc, last, o).items) == SetSize(cs)
  {
    hide ConditionItems, ConditionSize, MarkIf;
    if cs != [] {
      var more := |cs| > 1;
      var na := if more then last + 1 else action;
      var head := ConditionItems(cs[0], na, nc, if more then last + 1 else last, o);
      ConditionItemsSize(cs[0], na, nc, if more then last + 1 else last, o);
      SetItemsSize(cs[1..], action, nc, head.last, o);
      MarkSize(more, na);
      SizeConcat(head.items, MarkIf(more, na));
      SizeConcat(head.items + MarkIf(more, na), SetItems(cs[1..], action, nc, head.last, o).items);
    }
  }

  lemma {:induction false} SetsItemsSize(sets: seq<ConditionSet>, action: Label, next: Label, last: Label, o: Order)
    ensures Size(SetsItems(sets, action, next, last, o).items) == SetsSize(sets)
  {
    hide SetItems, SetSize, MarkIf;
    if sets != [] {
      var more := |sets| > 1;
      var nc := if more then last + 1 else next;
      var head := SetItems(sets[0], action, nc, if more then last + 1 else last, o);
      SetItemsSize(sets[0], action, nc, if more then last + 1 else last, o);
      SetsItemsSize(sets[1..], action, next, head.last, o);
      MarkSize(more, nc);
      SizeConcat(head.items, MarkIf(more, nc));
      SizeConcat(head.items + MarkIf(more, nc), SetsItems(sets[1..], action, next, head.last, o).items);
    }
  }

  lemma EntryItemsSize(e: Entry, more: bool, action: Label, end: Label, last: Label, o: Order)
    ensures Size(EntryItems(e, more, action, end, last, o).items) == BlockSize(e)
  {
    hide SetsItems, MarkIf, CheckTrue;
    if e.conditions == [] {
      CheckSize(Test.Equal, e.num, action, last + 1);
      OneItem(Branch(Test.Equal, e.num, action, end));
    } else {
      var next := if more then last + 1 else end;
      var first := (if more then last + 1 else last) + 1;
      var check := CheckTrue(Test.NotEqual, e.num, next, first);
      CheckSize(Test.NotEqual, e.num, next, first);
      SetsItemsSize(e.conditions, action, next, first, o);
      MarkSize(more, next);
      SizeConcat(check, SetsItems(e.conditions, action, next, first, o).items);
      SizeConcat(check + SetsItems(e.conditions, action, next, first, o).items, MarkIf(more, next));
    }
  }

  lemma {:induction false} EntriesItemsSize(es: seq<Entry>, action: Label, end: Label, last: Label, o: Order)
    ensures Size(EntriesItems(es, action, end, last, o).items) == EntriesSize(es)
  {
    hide EntryItems, BlockSize;
    if es != [] {
      var head := EntryItems(es[0], |es| > 1, action, end, last, o);
      EntryItemsSize(es[0], |es| > 1, action, end, last, o);
      EntriesItemsSize(es[1..], action, end, head.last, o);
      SizeConcat(head.items, EntriesItems(es[1..], action, end, head.last, o).items);
    }
  }

  lemma {:induction false} GroupsItemsSize(groups: seq<SyscallGroup>, arch: ArchInfo, last: Label, o: Order)
    requires GroupsItems(groups, arch, last, o).Ok?
    ensures Size(GroupsItems(groups, arch, last, o).value.items) + 1 == PolicySize(groups, arch)
  {
    hide EntriesItems, MergeGroup, EntriesSize;
    if groups != [] {
      if EmptyGroup(groups[0]) {
        GroupsItemsSize(groups[1..], arch, last, o);
      } else {
        var es, action := MergeGroup(groups[0], arch).entries, groups[0].action;
        var head := GroupItems(es, action, last, o);
        var body := EntriesItems(es, last + 1, last + 2, last + 2, o);
        GroupsItemsSize(groups[1..], arch, head.last, o);
        EntriesItemsSize(es, last + 1, last + 2, last + 2, o);
        var t := [Mark(last + 1), Return(ReturnValue(action)), Mark(last + 2)];
        assert t == [Mark(last + 1)] + [Return(ReturnValue(action))] + [Mark(last + 2)];
        OneItem(Mark(last + 1));
        OneItem(Return(ReturnValue(action)));
        OneItem(Mark(last + 2));
        SizeConcat([Mark(last + 1)], [Return(ReturnValue(action))]);
        SizeConcat([Mark(last + 1)] + [Return(ReturnValue(action))], [Mark(last + 2)]);
        SizeConcat(body.items, t);
        SizeConcat(head.items, GroupsItems(groups[1..], arch, head.last, o).value.items);
      }
    }
  }

  lemma {:induction false} CopiesBounded(c: Code, r: nat)
    requires r <= |c.jumps|
    ensures CopiesAfter(c, r) <= r
  {
    hide CutAfter, Leaps;
    if r > 0 {
      CopiesBounded(c, r - 1);
    }
  }

  lemma {:induction false} JumpsBounded(items: seq<Item>, base: Index)
    ensures |JumpsOf(items, base)| <= Size(items)
  {
    if items != [] {
      JumpsBounded(items[1..], base + Emits(items[0]));
    }
  }

  /** The filter is at most twice as long as the comparisons and returns of the policy, so the 32-bit skip of the long
      prologue never wraps for a policy of less than 2^31 instructions. */
  lemma FilterFits(groups: seq<SyscallGroup>, default: uint32, arch: ArchInfo, o: Order)
    requires SafeGroups(groups, arch)
    ensures Filter(groups, default, arch, o).Ok?
    ensures |Filter(groups, default, arch, o).value| <= 2 * PolicySize(groups, arch) + 6
  {
    hide GroupsItems, SafeGroups, AssembleFrom, Whole, Ready, CopiesAfter, PolicySize, Valid, Filter;
    var c := FilterParts(groups, default, arch, o);
    var items := PolicyItems(groups, default, arch, o);
    WholeTables(items, 0);
    GroupsItemsSize(groups, arch, 1, o);
    SizeConcat(GroupsItems(groups, arch, 1, o).value.items, [Return(ReturnValue(default))]);
    OneItem(Return(ReturnValue(default)));
    CopiesBounded(Whole(items), |Whole(items).jumps|);
    JumpsBounded(items, 0);
  }

  // ---- what it returns ----

  /** No filter of a safe policy of this length outgrows the 32-bit skip of the long prologue. */
  predicate Fits(groups: seq<SyscallGroup>, arch: ArchInfo) { 2 * PolicySize(groups, arch) + 6 < TWO_TO_32 }

  /** Whole-compiler correctness: a safe policy compiles, and its filter returns, for every record in either byte order,
      exactly the verdict of the evaluator that threads the accumulator through the comparisons. */
  lemma CompilerCorrect(groups: seq<SyscallGroup>, default: uint32, arch: ArchInfo, o: Order, acc: uint32, d: SeccompData)
    requires SafeGroups(groups, arch) && Fits(groups, arch)
    ensures Filter(groups, default, arch, o).Ok? && Evaluable(groups, arch)
    ensures Run(Filter(groups, default, arch, o).value, acc, EnvOf(d, o)) == Verdict(FilterVerdict(groups, default, arch, d))
  {
    hide GroupsItems, SafeGroups, Evaluable, AssembleFrom, Whole, Ready, Prologue, Run, EnvOf, Valid, ThreadGroups, CopiesAfter,
      PolicySize;
    SafeIsEvaluable(groups, arch);
    FilterFits(groups, default, arch, o);
    var c := FilterParts(groups, default, arch, o);
    PrologueRuns(arch, c.instrs, d, o, acc);
    BodyCorrect(groups, default, arch, o, d.nr, d);
  }

  lemma PrologueValid(arch: ArchInfo, instrs: seq<Instr>)
    requires Valid(instrs) && |Prologue(arch, instrs)| < TWO_TO_32
    ensures Valid(Prologue(arch, instrs))
  {
    var prog := Prologue(arch, instrs);
    var n := |prog| - |instrs|;
    assert prog[n..] == instrs;
    forall p | 0 <= p < |prog| ensures ValidAt(prog, p) {
      if p >= n {
        assert ValidAt(instrs, p - n);
        assert prog[p] == instrs[p - n];
      }
    }
  }

  /** The filter of a safe policy is valid machine code: whatever the data, every run halts at a return, within as many
      steps as the filter is long. */
  lemma FilterHalts(groups: seq<SyscallGroup>, default: uint32, arch: ArchInfo, o: Order, acc: uint32, env: Env)
    requires SafeGroups(groups, arch) && Fits(groups, arch) && |env.data| == 64
    ensures Filter(groups, default, arch, o).Ok?
    ensures var prog := Filter(groups, default, arch, o).value;
            && Valid(prog) && Run(prog, acc, env).Verdict?
            && RunFor(prog, acc, env, |prog|) == Some(Run(prog, acc, env))
  {
    hide GroupsItems, SafeGroups, AssembleFrom, Whole, Ready, Prologue, Run, RunFor, Steps, Valid, CopiesAfter, PolicySize;
    FilterFits(groups, default, arch, o);
    var c := FilterParts(groups, default, arch, o);
    PrologueValid(arch, c.instrs);
    NonemptyValid(Prologue(arch, c.instrs));
    ValidReturns(Prologue(arch, c.instrs), 0, acc, env);
    StepLimit(Prologue(arch, c.instrs), acc, env, |Prologue(arch, c.instrs)|);
    assert Prologue(arch, c.instrs)[0..] == Prologue(arch, c.instrs);
  }

  lemma NonemptyValid(prog: seq<Instr>)
    requires Valid(prog)
    ensures |prog| > 0
  {}

  // ---- every record at once ----

  /** The filter returns the evaluator's verdict on every record. */
  ghost predicate Faithful(groups: seq<SyscallGroup>, default: uint32, arch: ArchInfo, o: Order) {
    && Evaluable(groups, arch) && Filter(groups, default, arch, o).Ok?
    && forall acc: uint32, d: SeccompData ::
         Run(Filter(groups, default, arch, o).value, acc, EnvOf(d, o)) == Verdict(FilterVerdict(groups, default, arch, d))
  }

  lemma SafeIsFaithful(groups: seq<SyscallGroup>, default: uint32, arch: ArchInfo, o: Order)
    requires SafeGroups(groups, arch) && Fits(groups, arch)
    ensures Faithful(groups, default, arch, o)
  {
    hide SafeGroups, Fits, Run, EnvOf, Filter, FilterVerdict, Evaluable;
    CompilerCorrect(groups, default, arch, o, 0, Record(0, 0, 0, [0, 0, 0, 0, 0, 0]));
    forall acc: uint32, d: SeccompData
      ensures Run(Filter(groups, default, arch, o).value, acc, EnvOf(d, o)) == Verdict(FilterVerdict(groups, default, arch, d))
    {
      CompilerCorrect(groups, default, arch, o, acc, d);
    }
  }

  lemma NotFaithful(groups: seq<SyscallGroup>, default: uint32, arch: ArchInfo, o: Order, acc: uint32, d: SeccompData)
    requires Evaluable(groups, arch) && Filter(groups, default, arch, o).Ok?
    requires Run(Filter(groups, default, arch, o).value, acc, EnvOf(d, o)) != Verdict(FilterVerdict(groups, default, arch, d))
    ensures !Faithful(groups, default, arch, o)
  {
    hide Evaluable, Filter, Run, EnvOf, FilterVerdict;
  }
}
