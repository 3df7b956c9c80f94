/** The limit of 254 instructions for a conditional system call is exact: every conditional system call of 255 is compiled
    wrong in the right company. */
module BlockLimit {
  import opened Results
  import opened Words
  import opened Bpf
  import opened Labelled
  import opened Assembler
  import opened Resolution
  import opened Policies
  import opened Merge
  import opened Codegen
  import opened CodegenMeaning
  import opened Shapes
  import opened Tameness
  import opened Compiler
  import opened Correctness
  import opened Sizes
  import opened Acceptance
  import opened Turns

  // ---- the ends of a conditional block ----

  /** A check, the load of the low half and the branch on it. */
  predicate CheckAndTest(t: seq<Item>) { |t| == 4 && t[0].Branch? && t[1].Mark? && t[2].Load? && t[3].Branch? }

  predicate Bounds(items: seq<Item>) {
    |items| >= 5 && items[0].Load? && CheckAndTest(items[|items| - 4..])
  }

  lemma ConditionBounds(c: Condition, na: Label, nc: Label, last: Label, o: Order)
    ensures Bounds(ConditionItems(c, na, nc, last, o).items)
  {
    hide HiOffset, LoOffset, Hi, Lo;
    ConditionCases(c, na, nc, last, o);
  }

  lemma BoundsBefore(a: seq<Item>, more: seq<Item>, b: seq<Item>)
    requires Bounds(a) && (Bounds(b) || (more == [] && b == []))
    ensures Bounds(a + more + b)
  {
    if Bounds(b) {
      var all := a + more + b;
      assert all[|all| - 4..] == b[|b| - 4..];
    } else {
      assert a + more + b == a;
    }
  }

  lemma {:induction false} SetBounds(cs: ConditionSet, action: Label, nc: Label, last: Label, o: Order)
    requires cs != []
    ensures Bounds(SetItems(cs, action, nc, last, o).items)
  {
    hide ConditionItems, Bounds, MarkIf;
    var more := |cs| > 1;
    var na := if more then last + 1 else action;
    var head := ConditionItems(cs[0], na, nc, if more then last + 1 else last, o);
    ConditionBounds(cs[0], na, nc, if more then last + 1 else last, o);
    if more {
      SetBounds(cs[1..], action, nc, head.last, o);
    } else {
      NoMarkIf(na);
    }
    BoundsBefore(head.items, MarkIf(more, na), SetItems(cs[1..], action, nc, head.last, o).items);
  }

  lemma {:induction false} SetsBounds(sets: seq<ConditionSet>, action: Label, next: Label, last: Label, o: Order)
    requires sets != [] && NonemptySets(sets)
    ensures Bounds(SetsItems(sets, action, next, last, o).items)
  {
    hide SetItems, Bounds, MarkIf;
    var more := |sets| > 1;
    var nc := if more then last + 1 else next;
    var head := SetItems(sets[0], action, nc, if more then last + 1 else last, o);
    SetBounds(sets[0], action, nc, if more then last + 1 else last, o);
    if more {
      SetsBounds(sets[1..], action, next, head.last, o);
    } else {
      NoMarkIf(nc);
    }
    BoundsBefore(head.items, MarkIf(more, nc), SetsItems(sets[1..], action, next, head.last, o).items);
  }

  // ---- two names in front of such a block ----

  function Names(a: uint32, b: uint32, c: uint32): seq<Item> {
    [Branch(Test.Equal, a, 2, 4), Mark(4), Branch(Test.Equal, b, 2, 5), Mark(5), Branch(Test.NotEqual, c, 3, 6), Mark(6)]
  }

  function Ends(ret: uint32, default: uint32): seq<Item> { [Mark(2), Return(ret), Mark(3), Return(default)] }

  function Whole255(a: uint32, b: uint32, c: uint32, block: seq<Item>, ret: uint32, default: uint32): seq<Item> {
    Names(a, b, c) + (block + Ends(ret, default))
  }

  /** The block, without its number check: 254 instructions that set none of the labels around them. */
  predicate Block254(block: seq<Item>) {
    Bounds(block) && Size(block) == 254 && forall l: Label :: l <= 6 ==> !Marks(block, l)
  }

  lemma CheckTables(test: Test, val: uint32, to: Label, next: Label, k: seq<Item>, base: Index)
    ensures Size(CheckTrue(test, val, to, next) + k) == 1 + Size(k)
    ensures JumpsOf(CheckTrue(test, val, to, next) + k, base) == [JumpRef(base, to, next)] + JumpsOf(k, base + 1)
  {
    hide Size, JumpsOf;
    var br := Branch(test, val, to, next);
    ItemTables(Mark(next), k, base + 1);
    ItemTables(br, [Mark(next)] + k, base);
    assert CheckTrue(test, val, to, next) + k == [br] + ([Mark(next)] + k);
  }

  lemma NamesParts(a: uint32, b: uint32, c: uint32, k: seq<Item>)
    ensures Names(a, b, c) + k
            == CheckTrue(Test.Equal, a, 2, 4) + (CheckTrue(Test.Equal, b, 2, 5) + (CheckTrue(Test.NotEqual, c, 3, 6) + k))
  {}

  lemma NamesTables(a: uint32, b: uint32, c: uint32, k: seq<Item>)
    ensures Size(Names(a, b, c) + k) == 3 + Size(k)
    ensures JumpsOf(Names(a, b, c) + k, 0) == [JumpRef(0, 2, 4), JumpRef(1, 2, 5), JumpRef(2, 3, 6)] + JumpsOf(k, 3)
  {
    var z := CheckTrue(Test.NotEqual, c, 3, 6) + k;
    var y := CheckTrue(Test.Equal, b, 2, 5) + z;
    NamesParts(a, b, c, k);
    hide Size, JumpsOf, CheckTrue, Names;
    CheckTables(Test.NotEqual, c, 3, 6, k, 2);
    CheckTables(Test.Equal, b, 2, 5, z, 1);
    CheckTables(Test.Equal, a, 2, 4, y, 0);
  }

  lemma EndsTables(ret: uint32, default: uint32, base: Index)
    ensures Size(Ends(ret, default)) == 2 && JumpsOf(Ends(ret, default), base) == []
    ensures Dist(Ends(ret, default), 2) == 0 && Dist(Ends(ret, default), 3) == 1
    ensures Marks(Ends(ret, default), 2) && Marks(Ends(ret, default), 3)
  {
    var t := Ends(ret, default);
    assert t == [Mark(2), Return(ret)] + [Mark(3), Return(default)];
    TwoSize(Mark(2), Return(ret));
    TwoSize(Mark(3), Return(default));
    SizeConcat([Mark(2), Return(ret)], [Mark(3), Return(default)]);
    NoBranches(t, base);
    HereFirst(t, 2);
    HereFirst([Mark(3), Return(default)], 3);
    assert !Marks([Mark(2), Return(ret)], 3);
    DistPast([Mark(2), Return(ret)], [Mark(3), Return(default)], 3);
    MarksBehind([Mark(2), Return(ret)], [Mark(3), Return(default)], 3);
  }

  /** The ways on from one of the three first checks, in front of the block. */
  lemma WaysBefore(pre: seq<Item>, br: Item, x: Label, mid: seq<Item>, block: seq<Item>, t: seq<Item>, l: Label)
    requires br.Branch? && Block254(block) && l <= 6 && Marks(t, l) && !Marks([Mark(x)] + mid, l)
    ensures var c := Whole(pre + [br] + ([Mark(x)] + mid + (block + t)));
            && Way(c, l, Size(pre)) == Some(Size(pre) + 1 + Size(mid) + 254 + Dist(t, l))
            && Way(c, x, Size(pre)) == Some(Size(pre) + 1)
  {
    hide Whole, Size, Dist, Way, Marks, Bounds;
    var rest := [Mark(x)] + mid + (block + t);
    DistPast([Mark(x)] + mid, block + t, l);
    DistPast(block, t, l);
    ItemTables(Mark(x), mid, 0);
    MarksBehind(block, t, l);
    MarksBehind([Mark(x)] + mid, block + t, l);
    WayOfBranch(pre, br, rest, l);
    HereFirst(rest, x);
    WayOfBranch(pre, br, rest, x);
  }

  /** The tables of the program, as far as the argument needs them. */
  ghost predicate Begins(c: Code, a: uint32, ret: uint32, default: uint32) {
    && |c.instrs| == 259 && c.instrs[0] == JumpIf(Test.Equal, a, 0, 0)
    && c.instrs[254].JumpIf? && c.instrs[255].LoadAbsolute? && c.instrs[256].JumpIf?
    && c.instrs[257] == RetConstant(ret) && c.instrs[258] == RetConstant(default)
    && |c.jumps| > 3 && c.jumps[..3] == [JumpRef(0, 2, 4), JumpRef(1, 2, 5), JumpRef(2, 3, 6)] && c.jumps[3].index >= 4
    && Way(c, 2, 0) == Some(257) && Way(c, 4, 0) == Some(1)
    && Way(c, 2, 1) == Some(257) && Way(c, 5, 1) == Some(2)
    && Way(c, 3, 2) == Some(258) && Way(c, 6, 2) == Some(3)
  }

  lemma BeginsWays(a: uint32, b: uint32, c: uint32, block: seq<Item>, ret: uint32, default: uint32)
    requires Block254(block)
    ensures var w := Whole(Whole255(a, b, c, block, ret, default));
            && Way(w, 2, 0) == Some(257) && Way(w, 4, 0) == Some(1)
            && Way(w, 2, 1) == Some(257) && Way(w, 5, 1) == Some(2)
            && Way(w, 3, 2) == Some(258) && Way(w, 6, 2) == Some(3)
  {
    hide Whole, Way, Block254, Size, Dist, Marks;
    var x, y, z := Branch(Test.Equal, a, 2, 4), Branch(Test.Equal, b, 2, 5), Branch(Test.NotEqual, c, 3, 6);
    var all, t := Whole255(a, b, c, block, ret, default), Ends(ret, default);
    EndsTables(ret, default, 0);
    EmptySize();
    OneItem(x);
    MidSizes(y, z);
    assert all == [] + [x] + ([Mark(4)] + [y, Mark(5), z, Mark(6)] + (block + t));
    WaysBefore([], x, 4, [y, Mark(5), z, Mark(6)], block, t, 2);
    assert all == [x, Mark(4)] + [y] + ([Mark(5)] + [z, Mark(6)] + (block + t));
    TwoSize(x, Mark(4));
    WaysBefore([x, Mark(4)], y, 5, [z, Mark(6)], block, t, 2);
    assert all == [x, Mark(4), y, Mark(5)] + [z] + ([Mark(6)] + [] + (block + t));
    assert [x, Mark(4), y, Mark(5)] == [x, Mark(4)] + [y, Mark(5)];
    TwoSize(y, Mark(5));
    SizeConcat([x, Mark(4)], [y, Mark(5)]);
    WaysBefore([x, Mark(4), y, Mark(5)], z, 6, [], block, t, 3);
  }

  lemma MidSizes(y: Item, z: Item)
    requires y.Branch? && z.Branch?
    ensures Size([y, Mark(5), z, Mark(6)]) == 2 && Size([z, Mark(6)]) == 1
    ensures !Marks([Mark(4)] + [y, Mark(5), z, Mark(6)], 2) && !Marks([Mark(5)] + [z, Mark(6)], 2) && !Marks([Mark(6)] + [], 3)
  {
    assert [y, Mark(5), z, Mark(6)] == [y, Mark(5)] + [z, Mark(6)];
    TwoSize(y, Mark(5));
    TwoSize(z, Mark(6));
    SizeConcat([y, Mark(5)], [z, Mark(6)]);
  }

  lemma BeginsJumps(a: uint32, b: uint32, c: uint32, block: seq<Item>, ret: uint32, default: uint32)
    requires Block254(block)
    ensures var w := Whole(Whole255(a, b, c, block, ret, default));
            && |w.instrs| == 259
            && |w.jumps| > 3 && w.jumps[..3] == [JumpRef(0, 2, 4), JumpRef(1, 2, 5), JumpRef(2, 3, 6)] && w.jumps[3].index >= 4
  {
    hide Whole, Size, JumpsOf, Marks;
    var all, t := Whole255(a, b, c, block, ret, default), Ends(ret, default);
    WholeTables(all, 0);
    NamesTables(a, b, c, block + t);
    JumpsConcat(block, t, 3);
    SizeConcat(block, t);
    EndsTables(ret, default, 3 + Size(block));
    BlockJumps(block);
  }

  lemma BlockJumps(block: seq<Item>)
    requires Bounds(block)
    ensures |JumpsOf(block, 3)| > 0 && JumpsOf(block, 3)[0].index >= 4
  {
    hide Size, JumpsOf;
    var rest := block[1..];
    assert block == [block[0]] + rest;
    ItemTables(block[0], rest, 3);
    var n := |block|;
    var pre, y := block[1..n - 1], block[n - 1];
    assert block[n - 4..][3] == y;
    assert rest == pre + [y] + [];
    JumpsAtLast(pre, y, 4);
  }

  lemma JumpsAtLast(pre: seq<Item>, y: Item, base: Index)
    requires y.Branch?
    ensures JumpsOf(pre + [y] + [], base) != []
  {
    assert pre + [y] + [] == pre + [y];
    JumpsConcat(pre, [y], base);
    assert JumpsOf([y], base + Size(pre)) != [];
  }

  lemma BeginsInstrs(a: uint32, b: uint32, c: uint32, block: seq<Item>, ret: uint32, default: uint32)
    requires Block254(block)
    ensures var w := Whole(Whole255(a, b, c, block, ret, default));
            && |w.instrs| == 259 && w.instrs[0] == JumpIf(Test.Equal, a, 0, 0)
            && w.instrs[254].JumpIf? && w.instrs[255].LoadAbsolute? && w.instrs[256].JumpIf?
            && w.instrs[257] == RetConstant(ret) && w.instrs[258] == RetConstant(default)
  {
    hide Whole, Size, Marks;
    BeginsJumps(a, b, c, block, ret, default);
    var all, n := Whole255(a, b, c, block, ret, default), |block|;
    var head := Names(a, b, c);
    EmptySize();
    assert all == [] + [head[0]] + all[1..];
    TablesAt([], head[0], all[1..]);
    var t := block[n - 4..];
    var front := head + block[..n - 4];
    assert all == front + [t[0], t[1], t[2], t[3]] + Ends(ret, default);
    FrontSize(a, b, c, block);
    TailInstrs(front, t[0], t[1], t[2], t[3], ret, default);
  }

  lemma FrontSize(a: uint32, b: uint32, c: uint32, block: seq<Item>)
    requires Block254(block)
    ensures |block| >= 5 && Size(Names(a, b, c) + block[..|block| - 4]) == 254
  {
    hide Size, Marks;
    var n := |block|;
    var t := block[n - 4..];
    assert block == block[..n - 4] + t && t == [t[0], t[1]] + [t[2], t[3]];
    SizeConcat(block[..n - 4], t);
    SizeConcat([t[0], t[1]], [t[2], t[3]]);
    TwoSize(t[0], t[1]);
    TwoSize(t[2], t[3]);
    NamesTables(a, b, c, block[..n - 4]);
  }

  lemma TailInstrs(front: seq<Item>, x: Item, m: Item, ld: Item, y: Item, ret: uint32, default: uint32)
    requires x.Branch? && m.Mark? && ld.Load? && y.Branch?
    ensures var w, n := Whole(front + [x, m, ld, y] + Ends(ret, default)), Size(front);
            && |w.instrs| == n + 5 && w.instrs[n].JumpIf? && w.instrs[n + 1].LoadAbsolute? && w.instrs[n + 2].JumpIf?
            && w.instrs[n + 3] == RetConstant(ret) && w.instrs[n + 4] == RetConstant(default)
  {
    hide Whole, Size, Ends, InstrOf;
    var t := Ends(ret, default);
    var all := front + [x, m, ld, y] + t;
    assert all == front + [x] + ([m, ld, y] + t);
    TablesAt(front, x, [m, ld, y] + t);
    var f1 := front + [x, m];
    assert all == f1 + [ld] + ([y] + t);
    TwoSize(x, m);
    SizeConcat(front, [x, m]);
    TablesAt(f1, ld, [y] + t);
    var f2 := f1 + [ld];
    assert all == f2 + [y] + t;
    OneItem(ld);
    SizeConcat(f1, [ld]);
    TablesAt(f2, y, t);
    assert all == (f2 + [y]) + t;
    OneItem(y);
    SizeConcat(f2, [y]);
    Kinds(x, ld, y);
    EndInstrs(f2 + [y], ret, default);
  }

  lemma Kinds(x: Item, ld: Item, y: Item)
    requires x.Branch? && ld.Load? && y.Branch?
    ensures InstrOf(x).JumpIf? && InstrOf(ld).LoadAbsolute? && InstrOf(y).JumpIf?
  {}

  lemma EndInstrs(front: seq<Item>, ret: uint32, default: uint32)
    ensures var w, n := Whole(front + Ends(ret, default)), Size(front);
            |w.instrs| == n + 2 && w.instrs[n] == RetConstant(ret) && w.instrs[n + 1] == RetConstant(default)
  {
    hide Whole, Size;
    var all, f1 := front + Ends(ret, default), front + [Mark(2)];
    assert all == f1 + [Return(ret)] + [Mark(3), Return(default)];
    OneItem(Mark(2));
    SizeConcat(front, [Mark(2)]);
    TablesAt(f1, Return(ret), [Mark(3), Return(default)]);
    var f2 := f1 + [Return(ret), Mark(3)];
    assert all == f2 + [Return(default)] + [];
    TwoSize(Return(ret), Mark(3));
    SizeConcat(f1, [Return(ret), Mark(3)]);
    TablesAt(f2, Return(default), []);
    assert all == f2 + [Return(default)];
    OneItem(Return(default));
    SizeConcat(f2, [Return(default)]);
    SizeWhole(all);
  }

  // ---- resolving it ----

  /** After the first jump: a copy of the group's return stands at 255, and the first check skips to it. */
  ghost predicate OneCopy(c: Code, a: uint32, default: uint32, j: nat, k: nat) {
    && |c.instrs| == 260 && c.instrs[0] == JumpIf(Test.Equal, a, 254, 0)
    && c.instrs[255].RetConstant? && c.instrs[256].LoadAbsolute? && c.instrs[259] == RetConstant(default)
    && |c.jumps| > 3 && c.jumps[1] == JumpRef(1, 2, 5) && c.jumps[2] == JumpRef(2, 3, 6) && c.jumps[3].index >= 4
    && j < |c.jumps| && c.jumps[j].index == 254 && k < |c.jumps| && c.jumps[k].index == 257
    && Way(c, 2, 1) == Some(255) && Way(c, 5, 1) == Some(2) && Way(c, 3, 2) == Some(259) && Way(c, 6, 2) == Some(3)
  }

  lemma FirstTurn(c: Code, a: uint32, ret: uint32, default: uint32, j: nat, k: nat) returns (d: Code)
    requires Ready(c) && Begins(c, a, ret, default)
    requires j < |c.jumps| && c.jumps[j].index == 254 && k < |c.jumps| && c.jumps[k].index == 256
    ensures ResolveJump(c, 0) == (d, None) && Ready(d) && OneCopy(d, a, default, j, k)
  {
    hide Ready, ResolveJump, Way;
    ReadyAscends(c);
    assert c.jumps[0] == c.jumps[..3][0] && c.jumps[1] == c.jumps[..3][1] && c.jumps[2] == c.jumps[..3][2];
    InsertionPointAtLeast(c.jumps, c.jumps[0], j);
    var at, inst;
    d, at, inst := FarNear(c, 0);
    assert at == 255;
    assert Way(d, 2, ShiftIndex(1, at)) == WayPast(c, 2, at, 2, 1);
    assert Way(d, 5, ShiftIndex(1, at)) == WayPast(c, 2, at, 5, 1);
    assert Way(d, 3, ShiftIndex(2, at)) == WayPast(c, 2, at, 3, 2);
    assert Way(d, 6, ShiftIndex(2, at)) == WayPast(c, 2, at, 6, 2);
  }

  /** The second check finds the copy; the number check, out of reach of the default return, gets a copy of that in its place. */
  lemma NextTurns(c: Code, a: uint32, default: uint32, j: nat, k: nat) returns (d: Code, e: Code)
    requires Ready(c) && OneCopy(c, a, default, j, k)
    ensures ResolveJump(c, 1) == (d, None) && Ready(d) && |d.jumps| == |c.jumps|
    ensures ResolveJump(d, 2) == (e, None) && Ready(e) && |e.jumps| == |c.jumps|
    ensures Settled(e, 3, k, JumpIf(Test.Equal, a, 254, 0), default)
  {
    hide Ready, ResolveJump, Way;
    d := NearNear(c, 1);
    assert Way(d, 3, 2) == Some(259) && Way(d, 6, 2) == Some(3);
    ReadyAscends(d);
    InsertionPointAtLeast(d.jumps, d.jumps[2], j);
    InsertionPointRange(d, d.jumps[2]);
    assert d.instrs[255] == c.instrs[255] && d.instrs[256] == c.instrs[256];
    assert InsertionPoint(d.jumps, d.jumps[2]).index == 254;
    var at, inst;
    e, at, inst := FarNear(d, 2);
    assert at == 255 && inst == RetConstant(default);
    assert e.instrs[255] == inst && e.jumps[k].index == 258;
  }

  /** The first name gets the default instead of the group's action. */
  lemma BodyDefaults(a: uint32, b: uint32, c: uint32, block: seq<Item>, ret: uint32, default: uint32, env: Env)
    requires Block254(block) && Ready(Whole(Whole255(a, b, c, block, ret, default)))
    ensures Run(AssembleFrom(Whole(Whole255(a, b, c, block, ret, default)), 0).0.instrs, a, env) == Verdict(default)
  {
    hide Ready, Whole, Whole255, ResolveJump, Run, Block254, OneCopy, Way, AssembleFrom;
    var all := Whole255(a, b, c, block, ret, default);
    var w := Whole(all);
    BeginsWays(a, b, c, block, ret, default);
    BeginsJumps(a, b, c, block, ret, default);
    BeginsInstrs(a, b, c, block, ret, default);
    JumpsAreListed(all);
    var j :| 0 <= j < |w.jumps| && w.jumps[j].index == 254;
    var k :| 0 <= k < |w.jumps| && w.jumps[k].index == 256;
    AssembleFromStep(w, 0);
    var d := FirstTurn(w, a, ret, default, j, k);
    AssembleFromStep(d, 1);
    var e, f := NextTurns(d, a, default, j, k);
    AssembleFromStep(e, 2);
    AssembleKeepsSettled(f, 3, k, JumpIf(Test.Equal, a, 254, 0), default);
    SkipRun(AssembleFrom(f, 3).0.instrs, Test.Equal, a, default, a, env);
  }

  // ---- the policy ----

  /** Two names, and a third with alternatives: all with the same action. */
  function TwoNamesFirst(a: string, b: string, c: string, sets: seq<ConditionSet>, action: uint32): seq<SyscallGroup> {
    [SyscallGroup([a, b], Alternatives(c, sets), action)]
  }

  predicate ThreeNames(arch: ArchInfo, a: string, b: string, c: string) {
    && a in arch.syscallNames && b in arch.syscallNames && c in arch.syscallNames
    && Number(arch, a) != Number(arch, b) && Number(arch, b) != Number(arch, c) && Number(arch, a) != Number(arch, c)
  }

  lemma TwoNamesMerge(arch: ArchInfo, a: string, b: string, c: string, sets: seq<ConditionSet>, action: uint32)
    requires ThreeNames(arch, a, b, c) && ValidSets(sets) && sets != []
    ensures MergeGroup(TwoNamesFirst(a, b, c, sets, action)[0], arch)
            == Merged([Entry(Number(arch, a), []), Entry(Number(arch, b), []), Entry(Number(arch, c), sets)], [])
  {
    hide Number, MergeConditionals;
    var names := [a, b];
    assert names[..1] == [a] && [a][..0] == [];
    assert MergeNames(arch, []) == Merged([], []);
    assert MergeNames(arch, [a]) == Merged([Entry(Number(arch, a), [])], []);
    assert MergeNames(arch, names) == Merged([Entry(Number(arch, a), []), Entry(Number(arch, b), [])], []);
    AlternativesMerge(arch, names, c, sets);
  }

  function Block(sets: seq<ConditionSet>, o: Order): seq<Item> { SetsItems(sets, 2, 3, 6, o).items }

  lemma BlockIs254(sets: seq<ConditionSet>, o: Order)
    requires NonemptySets(sets) && SetsSize(sets) == 254
    ensures Block254(Block(sets, o)) && sets != []
  {
    hide SetsItems, Bounds, MarkCount;
    SetsItemsSize(sets, 2, 3, 6, o);
    assert sets != [];
    SetsBounds(sets, 2, 3, 6, o);
    SetsWithin(sets, 2, 3, 6, o);
    forall l: Label | l <= 6 ensures !Marks(Block(sets, o), l) {
      MarkCountMarks(Block(sets, o), l);
    }
  }

  lemma EntryListItems(na: uint32, nb: uint32, nc: uint32, sets: seq<ConditionSet>, o: Order)
    requires sets != []
    ensures var es := [Entry(na, []), Entry(nb, []), Entry(nc, sets)];
            EntriesItems(es, 2, 3, 3, o).items == Names(na, nb, nc) + Block(sets, o)
  {
    hide SetsItems;
    var a, b, c := Entry(na, []), Entry(nb, []), Entry(nc, sets);
    var last := EntryItems(c, false, 2, 3, 5, o);
    assert EntriesItems([], 2, 3, last.last, o) == Emitted([], last.last);
    assert [c][1..] == [] && [b, c][1..] == [c] && [a, b, c][1..] == [b, c];
    assert EntriesItems([c], 2, 3, 5, o).items == last.items + [];
    assert last.items == CheckTrue(Test.NotEqual, nc, 3, 6) + Block(sets, o) + [];
    assert EntriesItems([b, c], 2, 3, 4, o).items == CheckTrue(Test.Equal, nb, 2, 5) + EntriesItems([c], 2, 3, 5, o).items;
    assert EntriesItems([a, b, c], 2, 3, 3, o).items
        == CheckTrue(Test.Equal, na, 2, 4) + EntriesItems([b, c], 2, 3, 4, o).items;
  }

  lemma TwoNamesItems(arch: ArchInfo, a: string, b: string, c: string, sets: seq<ConditionSet>, action: uint32, default: uint32,
                      o: Order)
    requires ThreeNames(arch, a, b, c) && ValidSets(sets) && sets != []
    ensures var groups := TwoNamesFirst(a, b, c, sets, action);
            && GroupsItems(groups, arch, 1, o).Ok?
            && PolicyItems(groups, default, arch, o)
               == Whole255(Number(arch, a), Number(arch, b), Number(arch, c), Block(sets, o),
                           ReturnValue(action), ReturnValue(default))
  {
    hide SetsItems, MergeGroup, EntriesItems, Number, ReturnValue;
    var groups := TwoNamesFirst(a, b, c, sets, action);
    TwoNamesMerge(arch, a, b, c, sets, action);
    EntryListItems(Number(arch, a), Number(arch, b), Number(arch, c), sets, o);
    assert !EmptyGroup(groups[0]);
    var head := GroupItems(MergeGroup(groups[0], arch).entries, action, 1, o);
    assert groups[1..] == [];
    assert GroupsItems([], arch, head.last, o) == Ok(Emitted([], head.last));
    assert GroupsItems(groups, arch, 1, o) == Ok(Emitted(head.items + [], head.last));
  }

  lemma ThreeEntriesSize(x: Entry, y: Entry, z: Entry)
    ensures EntriesSize([x, y, z]) == BlockSize(x) + BlockSize(y) + BlockSize(z)
  {
    hide BlockSize;
    assert |[z][1..]| == 0 && [y, z][1..] == [z] && [x, y, z][1..] == [y, z];
    assert EntriesSize([z]) == BlockSize(z);
    assert EntriesSize([y, z]) == BlockSize(y) + BlockSize(z);
  }

  lemma OneGroup(g: SyscallGroup, arch: ArchInfo, limit: nat)
    requires !EmptyGroup(g)
    ensures PolicySize([g], arch) == EntriesSize(MergeGroup(g, arch).entries) + 2
    ensures BoundedGroup(g, arch, limit) ==> Evaluable([g], arch) && Bounded([g], arch, limit)
  {
    hide EntriesSize, MergeGroup, BlockSize, NonemptyEntries;
    assert [g][1..] == [];
  }

  lemma ThreeEntries(x: Entry, y: Entry, z: Entry)
    requires x.conditions == y.conditions == [] && NonemptySets(z.conditions) && SetsSize(z.conditions) == 254
    ensures BlockSize(x) == BlockSize(y) == 1 && BlockSize(z) == 255 && NonemptyEntries([x, y, z])
  {}

  lemma TwoNamesEvaluable(arch: ArchInfo, a: string, b: string, c: string, sets: seq<ConditionSet>, action: uint32)
    requires ThreeNames(arch, a, b, c) && ValidSets(sets) && NonemptySets(sets) && SetsSize(sets) == 254
    ensures var groups := TwoNamesFirst(a, b, c, sets, action);
            Evaluable(groups, arch) && Bounded(groups, arch, 255) && PolicySize(groups, arch) == 259
  {
    assert SetsSize([]) == 0;
    hide SetsSize, MergeGroup, Number, EntriesSize, PolicySize, Evaluable, Bounded, BlockSize, NonemptyEntries;
    TwoNamesMerge(arch, a, b, c, sets, action);
    var x, y, z := Entry(Number(arch, a), []), Entry(Number(arch, b), []), Entry(Number(arch, c), sets);
    ThreeEntriesSize(x, y, z);
    ThreeEntries(x, y, z);
    OneGroup(TwoNamesFirst(a, b, c, sets, action)[0], arch, 255);
  }

  /** Whatever its conditions, a conditional system call of 255 instructions makes the filter wrong for a call that two plain
      names of the same group put in front of it: the first of them gets the default instead of the group's action. */
  lemma BlockOf255Fails(arch: ArchInfo, a: string, b: string, c: string, sets: seq<ConditionSet>, action: uint32,
                        default: uint32, o: Order, acc: uint32, d: SeccompData)
    requires ThreeNames(arch, a, b, c) && ValidSets(sets) && NonemptySets(sets) && BlockSize(Entry(Number(arch, c), sets)) == 255
    requires d.arch == arch.id && d.nr == Number(arch, a) && (arch.id == X86_64_ID ==> d.nr < X32_SYSCALL_BIT)
    ensures var groups := TwoNamesFirst(a, b, c, sets, action);
            && Evaluable(groups, arch) && Bounded(groups, arch, 255) && Fits(groups, arch)
            && PolicySize(groups, arch) == 259 && Filter(groups, default, arch, o).Ok?
            && FilterVerdict(groups, default, arch, d) == ReturnValue(action)
            && Run(Filter(groups, default, arch, o).value, acc, EnvOf(d, o)) == Verdict(ReturnValue(default))
  {
    hide Filter, AssembleFrom, Whole, Whole255, Run, EnvOf, Prologue, Ready, Evaluable, Bounded, PolicySize, GroupsItems, Number,
      MergeGroup, SetsSize, ReturnValue, Block254, FilterVerdict;
    var groups := TwoNamesFirst(a, b, c, sets, action);
    BlockIs254(sets, o);
    TwoNamesEvaluable(arch, a, b, c, sets, action);
    TwoNamesMerge(arch, a, b, c, sets, action);
    TwoNamesGiven(a, b, c, sets, action);
    NonemptyIsUseful(groups, arch);
    FilterAccepts(groups, default, arch, o);
    var body := FilterBody(groups, default, arch, o);
    TwoNamesItems(arch, a, b, c, sets, action, default, o);
    PrologueRuns(arch, body, d, o, acc);
    BodyDefaults(Number(arch, a), Number(arch, b), Number(arch, c), Block(sets, o), ReturnValue(action), ReturnValue(default),
                 EnvOf(d, o));
    FirstNameMatches(arch, a, b, c, sets, action, default, d);
  }

  lemma TwoNamesGiven(a: string, b: string, c: string, sets: seq<ConditionSet>, action: uint32)
    requires NonemptySets(sets)
    ensures NonemptyConditions(TwoNamesFirst(a, b, c, sets, action))
  {}

  lemma FirstNameMatches(arch: ArchInfo, a: string, b: string, c: string, sets: seq<ConditionSet>, action: uint32,
                         default: uint32, d: SeccompData)
    requires ThreeNames(arch, a, b, c) && ValidSets(sets) && sets != []
    requires Evaluable(TwoNamesFirst(a, b, c, sets, action), arch)
    requires d.arch == arch.id && d.nr == Number(arch, a) && (arch.id == X86_64_ID ==> d.nr < X32_SYSCALL_BIT)
    ensures FilterVerdict(TwoNamesFirst(a, b, c, sets, action), default, arch, d) == ReturnValue(action)
  {
    hide Number, MergeGroup, ReturnValue;
    var groups := TwoNamesFirst(a, b, c, sets, action);
    TwoNamesMerge(arch, a, b, c, sets, action);
    var es := MergeGroup(groups[0], arch).entries;
    EntriesOf(groups[0], arch);
    assert EntryMatches(es[0], d.nr, d);
    assert ThreadEntries(es, d.nr, d) == Matched;
    assert !EmptyGroup(groups[0]);
  }

  // ---- the exact limit ----

  lemma BoundedMore(groups: seq<SyscallGroup>, arch: ArchInfo, limit: nat, more: nat)
    requires Bounded(groups, arch, limit) && limit <= more
    ensures Bounded(groups, arch, more)
  {
    hide MergeGroup, BlockSize, EvaluableGroup;
    forall k | 0 <= k < |groups| ensures BoundedGroup(groups[k], arch, more) {
      assert BoundedGroup(groups[k], arch, limit);
    }
  }

  /** A limit on the length of conditional system calls makes the filter of every policy faithful on every record if and only
      if it is at most 254. */
  lemma BlockLimitExact(limit: nat)
    ensures limit <= 254 <==>
            forall groups, default, arch, o :: Bounded(groups, arch, limit) && Fits(groups, arch) ==>
              Faithful(groups, default, arch, o)
  {
    hide Bounded, Fits, Faithful;
    if limit <= 254 {
      forall groups, default, arch, o | Bounded(groups, arch, limit) && Fits(groups, arch)
        ensures Faithful(groups, default, arch, o)
      {
        BoundedMore(groups, arch, limit, BLOCK_LIMIT);
        SafeIsFaithful(groups, default, arch, o);
      }
    } else {
      var groups, default, arch := UnfaithfulPolicy(LittleEndian);
      BoundedMore(groups, arch, 255, limit);
    }
  }

  const THREE_CALLS := ArchInfo(X86_64_ID, map["read" := 0, "write" := 1, "open" := 2], 0)

  function Cond(k: nat): Condition { Condition(0, if k < 61 then Operation.Equal else Operation.GreaterThan, k % 64) }

  /** 61 alternatives of four instructions and two of five. */
  function Sets(n: nat): (r: seq<ConditionSet>)
    ensures |r| == n
  {
    if n == 0 then [] else Sets(n - 1) + [[Cond(n - 1)]]
  }

  lemma {:induction false} SetsSizeConcat(a: seq<ConditionSet>, b: seq<ConditionSet>)
    ensures SetsSize(a + b) == SetsSize(a) + SetsSize(b)
  {
    if a == [] {
      assert a + b == b;
    } else {
      assert (a + b)[1..] == a[1..] + b;
      SetsSizeConcat(a[1..], b);
    }
  }

  lemma {:induction false} SetsOf(n: nat)
    ensures ValidSets(Sets(n)) && NonemptySets(Sets(n))
    ensures SetsSize(Sets(n)) == if n <= 61 then 4 * n else 244 + 5 * (n - 61)
  {
    if n > 0 {
      SetsOf(n - 1);
      var s: ConditionSet := [Cond(n - 1)];
      var one: seq<ConditionSet> := [s];
      SetsSizeConcat(Sets(n - 1), one);
      assert s[1..] == [] && |one[1..]| == 0;
      assert SetSize(s) == ConditionSize(Cond(n - 1)) && SetsSize(one) == SetSize(s);
    }
  }

  /** One policy that shows it: refuse `read` and `write`, and `open` under 63 alternative conditions; allow the rest. */
  lemma UnfaithfulPolicy(o: Order) returns (groups: seq<SyscallGroup>, default: uint32, arch: ArchInfo)
    ensures Bounded(groups, arch, 255) && Fits(groups, arch) && !Faithful(groups, default, arch, o)
    ensures Evaluable(groups, arch) && PolicySize(groups, arch) == 259
  {
    hide Bounded, Fits, Run, EnvOf, Filter, FilterVerdict, Evaluable, Sets, Number, Faithful, TwoNamesFirst, SetsSize, ValidSets;
    arch, default := THREE_CALLS, ACTION_ALLOW;
    groups := TwoNamesFirst("read", "write", "open", Sets(63), ACTION_ERRNO);
    var d: SeccompData := Record(0, X86_64_ID, 0, [0, 0, 0, 0, 0, 0]);
    ThreeCalls();
    SetsOf(63);
    BlockOf255Fails(arch, "read", "write", "open", Sets(63), ACTION_ERRNO, default, o, 0, d);
    NotFaithful(groups, default, arch, o, 0, d);
  }

  lemma ThreeCalls()
    ensures Number(THREE_CALLS, "read") == 0 && Number(THREE_CALLS, "write") == 1 && Number(THREE_CALLS, "open") == 2
  {}
}
