/** A policy whose filter contains a long jump that lands in the wrong place, and a shorter one whose long jump is right. */
module Misjump {
  import opened Results
  import opened Words
  import opened Bpf
  import opened Labelled
  import opened Assembler
  import opened Resolution
  import opened Policies
  import opened Merge
  import opened Codegen
  import opened CodegenMeaning
  import opened Tameness
  import opened Shapes
  import opened Compiler
  import opened Correctness
  import opened Plain
  import opened Sizes
  import opened Acceptance
  import opened Turns
  import opened LongJumps
  import opened Nearby
  import opened PolicyLimit
  import opened Uniform
  import opened Limits

  const IS: Comparing := Operation.Equal

  /** Refuse `read` when its first argument is 0, a rule given `n` times over; trap `write`; allow the rest. */
  function TwoGroups(n: nat): seq<SyscallGroup> {
    [SyscallGroup([], Alternatives("read", Sets(IS, n)), ACTION_ERRNO), SyscallGroup(["write"], [], ACTION_TRAP)]
  }

  // ---- what is emitted ----

  function LastLabel(n: nat, o: Order): Label { SetsItems(Sets(IS, n), 2, 3, 4, o).last }

  lemma LastLabelLater(n: nat, o: Order)
    ensures LastLabel(n, o) >= 4
  {
    hide SetsItems, Within, Sets;
    SetsWithin(Sets(IS, n), 2, 3, 4, o);
    WithinGrows(SetsItems(Sets(IS, n), 2, 3, 4, o).items, 4, LastLabel(n, o));
  }

  function Tail(a: Label): seq<Item> {
    [Mark(2), Return(REFUSED), Mark(3), Branch(Test.Equal, 1, a + 1, a + 2), Mark(a + 1), Return(ACTION_TRAP), Mark(a + 2),
     Return(ACTION_ALLOW)]
  }

  function Items(n: nat, o: Order): seq<Item> { Front(IS, n, o) + Tail(LastLabel(n, o)) }

  function Second(a: Label): Item { Branch(Test.Equal, 1, a + 1, a + 2) }

  /** The second group and the default return. */
  function Rest(a: Label): seq<Item> { [Mark(a + 1)] + ([Return(ACTION_TRAP)] + ([Mark(a + 2)] + [Return(ACTION_ALLOW)])) }

  lemma TailParts(a: Label)
    ensures Tail(a) == [Mark(2)] + ([Return(REFUSED)] + ([Mark(3)] + ([Second(a)] + Rest(a))))
  {}

  lemma RestTables(a: Label, base: Index)
    ensures Size(Rest(a)) == 2 && JumpsOf(Rest(a), base) == []
    ensures InstrsOf(Rest(a)) == [RetConstant(ACTION_TRAP), RetConstant(ACTION_ALLOW)]
  {
    hide Size, JumpsOf;
    var t := [Return(ACTION_ALLOW)];
    OneItem(t[0]);
    NoBranches(Rest(a), base);
    ItemTables(Mark(a + 2), t, base);
    ItemTables(Return(ACTION_TRAP), [Mark(a + 2)] + t, base);
    ItemTables(Mark(a + 1), [Return(ACTION_TRAP)] + ([Mark(a + 2)] + t), base);
    OneReturn(ACTION_ALLOW);
    MarkInstrs(a + 2, t);
    HeadTables(Return(ACTION_TRAP), [Mark(a + 2)] + t, base);
    MarkInstrs(a + 1, [Return(ACTION_TRAP)] + ([Mark(a + 2)] + t));
  }

  lemma OneReturn(v: uint32)
    ensures InstrsOf([Return(v)]) == [RetConstant(v)]
  {
    assert [Return(v)][1..] == [];
  }

  lemma MarkInstrs(l: Label, k: seq<Item>)
    ensures InstrsOf([Mark(l)] + k) == InstrsOf(k)
  {
    assert ([Mark(l)] + k)[1..] == k;
  }

  lemma TailJumps(a: Label, base: Index)
    ensures Size(Tail(a)) == 4 && JumpsOf(Tail(a), base) == [JumpRef(base + 1, a + 1, a + 2)]
  {
    var k3 := [Second(a)] + Rest(a);
    var head := [Mark(2), Return(REFUSED)] + [Mark(3)];
    assert Tail(a) == head + k3;
    TwoSize(Mark(2), Return(REFUSED));
    OneItem(Mark(3));
    SizeConcat([Mark(2), Return(REFUSED)], [Mark(3)]);
    NoBranches(head, base);
    hide Size, JumpsOf, Rest, Tail;
    RestTables(a, base + 2);
    ItemTables(Second(a), Rest(a), base + 1);
    SizeConcat(head, k3);
    JumpsConcat(head, k3, base);
  }

  lemma TailInstrs(a: Label)
    ensures InstrsOf(Tail(a))
            == [RetConstant(REFUSED), JumpIf(Test.Equal, 1, 0, 0), RetConstant(ACTION_TRAP), RetConstant(ACTION_ALLOW)]
  {
    var k3 := [Second(a)] + Rest(a);
    var k2 := [Mark(3)] + k3;
    TailParts(a);
    assert InstrOf(Second(a)) == JumpIf(Test.Equal, 1, 0, 0) && InstrOf(Return(REFUSED)) == RetConstant(REFUSED);
    assert !Second(a).Mark?;
    hide Size, JumpsOf, InstrsOf, InstrOf, Second, Rest, Tail;
    RestTables(a, 0);
    HeadTables(Second(a), Rest(a), 0);
    MarkInstrs(3, k3);
    HeadTables(Return(REFUSED), k2, 0);
    MarkInstrs(2, [Return(REFUSED)] + k2);
  }

  lemma TailDistances(a: Label)
    ensures Dist(Tail(a), 2) == 0 && Dist(Tail(a), 3) == 1 && Marks(Tail(a), 2) && Marks(Tail(a), 3)
  {
    var k2 := [Mark(3)] + ([Second(a)] + Rest(a));
    var k1 := [Return(REFUSED)] + k2;
    TailParts(a);
    hide Rest, Tail;
    HereFirst([Mark(2)] + k1, 2);
    HereFirst(k2, 3);
    assert ([Mark(2)] + k1)[1..] == k1 && k1[1..] == k2;
    assert Dist(k1, 3) == 1;
    MarksBehind([Return(REFUSED)], k2, 3);
    MarksBehind([Mark(2)], k1, 3);
  }

  lemma RestShort(a: Label)
    ensures ShortOr(Rest(a)) && Short(Rest(a), a + 1) && Short(Rest(a), a + 2)
  {
    var t := [Return(ACTION_ALLOW)];
    var k3 := [Mark(a + 2)] + t;
    var k2 := [Return(ACTION_TRAP)] + k3;
    assert ShortOr(t) by { assert t[1..] == []; }
    ShortCons(Mark(a + 2), t);
    ShortCons(Return(ACTION_TRAP), k3);
    ShortCons(Mark(a + 1), k2);
    HereFirst(Rest(a), a + 1);
    HereFirst(k3, a + 2);
    assert k2[1..] == k3 && Rest(a)[1..] == k2;
    MarksBehind([Return(ACTION_TRAP)], k3, a + 2);
    MarksBehind([Mark(a + 1)], k2, a + 2);
    assert Dist(k2, a + 2) == 1;
  }

  lemma TailShort(a: Label)
    ensures ShortOr(Tail(a))
  {
    hide ShortOr, Short, Rest, Tail;
    var k3 := [Second(a)] + Rest(a);
    var k2 := [Mark(3)] + k3;
    RestShort(a);
    ShortCons(Second(a), Rest(a));
    ShortCons(Mark(3), k3);
    ShortCons(Return(REFUSED), k2);
    ShortCons(Mark(2), [Return(REFUSED)] + k2);
    TailParts(a);
  }

  // ---- most branches are short ----

  predicate Short(rest: seq<Item>, l: Label) { l == 2 || (Marks(rest, l) && Dist(rest, l) <= 3) }

  /** Every branch goes to the action of the first group or at most three instructions on. */
  predicate ShortOr(items: seq<Item>) {
    items == [] || (
      && (items[0].Branch? ==> Short(items[1..], items[0].onTrue) && Short(items[1..], items[0].onFalse))
      && ShortOr(items[1..]))
  }

  lemma ShortCons(it: Item, k: seq<Item>)
    requires ShortOr(k) && (it.Branch? ==> Short(k, it.onTrue) && Short(k, it.onFalse))
    ensures ShortOr([it] + k)
  {
    assert ([it] + k)[1..] == k;
  }

  lemma {:induction false} ShortAt(a: seq<Item>, br: Item, rest: seq<Item>)
    requires ShortOr(a + [br] + rest) && br.Branch?
    ensures Short(rest, br.onTrue) && Short(rest, br.onFalse)
  {
    var all := a + [br] + rest;
    if a == [] {
      assert all[1..] == rest && all[0] == br;
    } else {
      assert all[1..] == a[1..] + [br] + rest;
      ShortAt(a[1..], br, rest);
    }
  }

  lemma OneShort(nc: Label, x: Label, o: Order, k: seq<Item>)
    requires ShortOr(k) && Marks(k, nc) && Dist(k, nc) <= 1 && x != nc
    ensures ShortOr(OneSet(IS, 2, nc, x, o) + k)
  {
    assert Short(k, 2) && Short(k, nc);
    OneSetAs(nc, x, o, k);
    hide ShortOr, Short, Dist, Marks, OneSet;
    var hi, lo := Hi0(IS, 2, nc, x), Lo0(IS, 2, nc);
    var k2 := [LdLo(o)] + ([lo] + k);
    ShortCons(lo, k);
    ShortCons(LdLo(o), [lo] + k);
    ShortCons(Mark(x), k2);
    NearBehind(x, LdLo(o), lo, k, nc);
    ShortCons(hi, [Mark(x)] + k2);
    ShortCons(LdHi(o), [hi] + ([Mark(x)] + k2));
  }

  lemma OneSetAs(nc: Label, x: Label, o: Order, k: seq<Item>)
    ensures OneSet(IS, 2, nc, x, o) + k
            == [LdHi(o)] + ([Hi0(IS, 2, nc, x)] + ([Mark(x)] + ([LdLo(o)] + ([Lo0(IS, 2, nc)] + k))))
  {}

  lemma NearBehind(x: Label, ld: Item, lo: Item, k: seq<Item>, nc: Label)
    requires ld.Load? && lo.Branch? && x != nc && Marks(k, nc) && Dist(k, nc) <= 1
    ensures Short([Mark(x)] + ([ld] + ([lo] + k)), nc) && Short([Mark(x)] + ([ld] + ([lo] + k)), x)
  {
    hide Dist, Marks, Size;
    var three := [Mark(x), ld, lo];
    assert [Mark(x)] + ([ld] + ([lo] + k)) == three + k;
    NotMarkedInThree(x, ld, lo, nc);
    DistPast(three, k, nc);
    MarksBehind(three, k, nc);
    HereFirst(three + k, x);
  }

  lemma {:induction false} ManyShort(n: nat, last: Label, o: Order, k: seq<Item>)
    requires ShortOr(k) && Marks(k, 3) && Dist(k, 3) <= 1 && last >= 4
    ensures ShortOr(SetsItems(Sets(IS, n), 2, 3, last, o).items + k)
  {
    hide SetsItems, OneSet, Sets, ShortOr, MarkIf, Marks, Dist;
    if n == 0 {
      NoSets0(last, o);
      assert [] + k == k;
    } else {
      var more := n > 1;
      var nc, x := if more then last + 1 else 3, if more then last + 2 else last + 1;
      var one, rest := OneSet(IS, 2, nc, x, o), SetsItems(Sets(IS, n - 1), 2, 3, x, o).items;
      ManyStep(IS, n, 2, 3, last, o);
      ManyShort(n - 1, x, o, k);
      if more {
        MarkIsIt(nc, rest + k);
      } else {
        NoSets0(x, o);
        NoMarkIf(nc);
        assert MarkIf(more, nc) + (rest + k) == k;
      }
      OneShort(nc, x, o, MarkIf(more, nc) + (rest + k));
      Regroup(one + MarkIf(more, nc), rest, k);
      Regroup(one, MarkIf(more, nc), rest + k);
    }
  }

  lemma NoSets0(last: Label, o: Order)
    ensures SetsItems(Sets(IS, 0), 2, 3, last, o).items == []
  {
    assert Sets(IS, 0) == [];
  }

  lemma MarkIsIt(nc: Label, k: seq<Item>)
    requires ShortOr(k)
    ensures var r := MarkIf(true, nc) + k; ShortOr(r) && Marks(r, nc) && Dist(r, nc) == 0
  {
    ShortCons(Mark(nc), k);
    HereFirst([Mark(nc)] + k, nc);
  }

  /** In the tables: jump `q` goes to the action of the first group or at most four instructions on. */
  predicate ShortWays(c: Code, q: nat)
    requires q < |c.jumps|
  {
    ShortWay(c, c.jumps[q].onTrue, c.jumps[q].index) && ShortWay(c, c.jumps[q].onFalse, c.jumps[q].index)
  }

  predicate ShortWay(c: Code, l: Label, i: Index) { l == 2 || (Way(c, l, i).Some? && Way(c, l, i).value <= i + 4) }

  lemma ShortInTables(n: nat, o: Order, q: nat)
    requires 1 <= q < |Whole(Items(n, o)).jumps|
    ensures ShortWays(Whole(Items(n, o)), q)
  {
    hide Whole, ShortOr, JumpsOf, Size, SetsItems, Sets, Dist, Marks, Tail, Way;
    var items, t := Items(n, o), Tail(LastLabel(n, o));
    TailDistances(LastLabel(n, o));
    TailShort(LastLabel(n, o));
    ManyShort(n, 4, o, t);
    var r := [Mark(4)] + (Checks(IS, n, o) + t);
    ShortCons(Mark(4), Checks(IS, n, o) + t);
    assert items == [NumberCheck()] + r;
    WholeTables(items, 0);
    var pre, br, rest := BranchNumber(items, q);
    NotFirst(pre);
    assert r == items[1..] == pre[1..] + [br] + rest;
    ShortAt(pre[1..], br, rest);
    ShortInTable(pre, br, rest, br.onTrue);
    ShortInTable(pre, br, rest, br.onFalse);
  }

  lemma NotFirst(pre: seq<Item>)
    requires |JumpsOf(pre, 0)| >= 1
    ensures pre != []
  {}

  lemma ShortInTable(pre: seq<Item>, br: Item, rest: seq<Item>, l: Label)
    requires br.Branch? && Short(rest, l)
    ensures ShortWay(Whole(pre + [br] + rest), l, Size(pre))
  {
    hide Whole, Dist, Marks, Size, Way;
    if l != 2 {
      WayOfBranch(pre, br, rest, l);
    }
  }

  // ---- the whole program ----

  /** The tables of the program, as far as the argument needs them. */
  ghost predicate Begins(c: Code, nc: Label, x: Label) {
    && |c.instrs| == 265 && c.instrs[0] == JumpIf(Test.NotEqual, 0, 0, 0)
    && c.instrs[261] == RetConstant(REFUSED) && c.instrs[262].JumpIf?
    && |c.jumps| == 132 && (forall k :: 0 <= k < 131 ==> c.jumps[k].index == 2 * k) && c.jumps[131].index == 262
    && c.jumps[131].onTrue != 2 && c.jumps[131].onFalse != 2
    && c.jumps[0] == JumpRef(0, 3, 4) && c.jumps[1] == JumpRef(2, nc, x) && c.jumps[2] == JumpRef(4, 2, nc)
    && nc > 4 && x > 4
    && Way(c, 3, 0) == Some(262) && Way(c, 4, 0) == Some(1)
    && Way(c, x, 2) == Some(3) && Way(c, nc, 2) == Some(5) && Way(c, nc, 4) == Some(5)
    && (forall i :: 0 <= i <= 260 ==> Way(c, 2, i) == Some(261))
    && (forall q :: 1 <= q < 132 ==> ShortWays(c, q))
  }

  lemma ItBegins(o: Order) returns (nc: Label, x: Label)
    ensures Begins(Whole(Items(65, o)), nc, x)
  {
    hide Whole, Front, Way, JumpsOf, Tail, Dist, Size, Marks, Checks, InstrsOf, ShortWays, SetsItems, Sets;
    var c, t := Whole(Items(65, o)), Tail(LastLabel(65, o));
    LastLabelLater(65, o);
    TailJumps(LastLabel(65, o), 261);
    TailInstrs(LastLabel(65, o));
    TailDistances(LastLabel(65, o));
    ProgramTables(IS, 65, o, t);
    ChecksTables(IS, 65, o);
    WayToTail(IS, 65, o, t, 3, 0);
    WayToChecks(IS, 65, o, t);
    nc, x := FirstAlternative(IS, 65, o, t);
    forall i | 0 <= i <= 260 ensures Way(c, 2, i) == Some(261) {
      WayToTail(IS, 65, o, t, 2, i);
    }
    assert c.instrs[261] == c.instrs[261..][0] && c.instrs[262] == c.instrs[261..][1];
    forall q | 1 <= q < 132 ensures ShortWays(c, q) {
      ShortInTables(65, o, q);
    }
  }

  // ---- resolving it ----

  /** After the first jump: a long jump stands at 255, and its skip takes it to the check of the second group, at 263. */
  ghost predicate JumpPlaced(c: Code, nc: Label, x: Label) {
    && |c.instrs| == 266 && c.instrs[0] == JumpIf(Test.NotEqual, 0, 254, 0) && c.instrs[255] == Jump(7)
    && c.instrs[262] == RetConstant(REFUSED) && c.instrs[263].JumpIf?
    && |c.jumps| == 132 && (forall k :: 0 <= k < 131 ==> c.jumps[k].index == if k <= 127 then 2 * k else 2 * k + 1)
    && c.jumps[131].index == 263 && c.jumps[131].onTrue != 2 && c.jumps[131].onFalse != 2
    && c.jumps[1] == JumpRef(2, nc, x) && c.jumps[2] == JumpRef(4, 2, nc) && nc > 4
    && Way(c, x, 2) == Some(3) && Way(c, nc, 2) == Some(5) && Way(c, nc, 4) == Some(5)
    && (forall i :: 1 <= i <= 261 ==> i != 255 ==> Way(c, 2, i) == Some(262))
    && (forall q :: 1 <= q < 132 ==> ShortBy(c, q, 5))
  }

  predicate ShortBy(c: Code, q: nat, n: nat)
    requires q < |c.jumps|
  {
    var j := c.jumps[q];
    && (j.onTrue == 2 || (Way(c, j.onTrue, j.index).Some? && Way(c, j.onTrue, j.index).value <= j.index + n))
    && (j.onFalse == 2 || (Way(c, j.onFalse, j.index).Some? && Way(c, j.onFalse, j.index).value <= j.index + n))
  }

  lemma FirstTurn(c: Code, nc: Label, x: Label) returns (d: Code)
    requires Ready(c) && Begins(c, nc, x)
    ensures ResolveJump(c, 0) == (d, None) && Ready(d) && JumpPlaced(d, nc, x)
  {
    hide Ready, ResolveJump, Way;
    ReadyAscends(c);
    InsertionPointAtLeast(c.jumps, c.jumps[0], 127);
    var at, inst;
    d, at, inst := FarNear(c, 0);
    assert at == 255 && inst == Jump(7);
    assert Way(d, x, ShiftIndex(2, at)) == WayPast(c, 3, at, x, 2);
    assert Way(d, nc, ShiftIndex(2, at)) == WayPast(c, 3, at, nc, 2);
    assert Way(d, nc, ShiftIndex(4, at)) == WayPast(c, 3, at, nc, 4);
    forall i | 1 <= i <= 261 && i != 255 ensures Way(d, 2, i) == Some(262) {
      var k := if i < 255 then i else i - 1;
      assert Way(d, 2, ShiftIndex(k, at)) == WayPast(c, 3, at, 2, k);
    }
    forall q | 1 <= q < 132 ensures ShortBy(d, q, 5) {
      var j := c.jumps[q];
      assert ShortWays(c, q);
      if j.index < 255 {
        SameWay(c, 3, 0, j.index);
      }
      assert Way(d, j.onTrue, ShiftIndex(j.index, at)) == WayPast(c, 3, at, j.onTrue, j.index);
      assert Way(d, j.onFalse, ShiftIndex(j.index, at)) == WayPast(c, 3, at, j.onFalse, j.index);
    }
  }

  /** The first check of the first alternative is near both ways; its second one is too far from the first group's return, and
      the copy of that return pushes the check of the second group on by one. */
  ghost predicate JumpLost(c: Code) {
    && |c.instrs| == 267 && c.instrs[0] == JumpIf(Test.NotEqual, 0, 254, 0) && c.instrs[255] == Jump(7)
    && c.instrs[263] == RetConstant(REFUSED) && c.instrs[264].JumpIf?
    && |c.jumps| == 132 && c.jumps[3].index == 6 && AllNear(c, 3)
  }

  lemma NextTurns(c: Code, nc: Label, x: Label) returns (d: Code, e: Code)
    requires Ready(c) && JumpPlaced(c, nc, x)
    ensures ResolveJump(c, 1) == (d, None) && Ready(d) && |d.jumps| == |c.jumps|
    ensures ResolveJump(d, 2) == (e, None) && Ready(e) && JumpLost(e)
    ensures |d.instrs| == 266 && Way(d, d.jumps[2].onTrue, d.jumps[2].index) == Some(262)
    ensures d.jumps[2].index == 4 && InsertionPoint(d.jumps, d.jumps[2]).index == 257
  {
    hide Ready, ResolveJump, Way, AllNear;
    d := NearNear(c, 1);
    assert Way(d, 2, 4) == Way(c, 2, 4) && Way(d, nc, 4) == Way(c, nc, 4);
    ReadyAscends(d);
    InsertionPointAtLeast(d.jumps, d.jumps[2], 128);
    InsertionPointRange(d, d.jumps[2]);
    var k :| 0 <= k < |d.jumps| && d.jumps[k] == InsertionPoint(d.jumps, d.jumps[2]);
    assert k == 128;
    var at, inst;
    e, at, inst := FarNear(d, 2);
    assert at == 258 && inst == RetConstant(REFUSED);
    RestNear(c, nc, x, d, e);
  }

  /** All other branches are near now. */
  lemma RestNear(c: Code, nc: Label, x: Label, d: Code, e: Code)
    requires JumpPlaced(c, nc, x) && d.jumps == c.jumps && (forall m, k :: k >= 2 ==> Way(d, m, k) == Way(c, m, k))
    requires e.jumps == ShiftJumps(c.jumps, 258)
    requires forall m, k :: k >= 4 ==> Way(e, m, ShiftIndex(k, 258)) == WayPast(d, 2, 258, m, k)
    ensures AllNear(e, 3)
  {
    hide Way;
    forall q | 3 <= q < |e.jumps| ensures NearWays(e, q) {
      var j := c.jumps[q];
      assert ShortBy(c, q, 5);
      assert Way(e, j.onTrue, ShiftIndex(j.index, 258)) == WayPast(d, 2, 258, j.onTrue, j.index);
      assert Way(e, j.onFalse, ShiftIndex(j.index, 258)) == WayPast(d, 2, 258, j.onFalse, j.index);
      if q < 131 {
        assert Way(d, 2, j.index) == Way(c, 2, j.index) == Some(262);
      }
    }
  }

  /** A check that skips to the long jump, and the jump to the return of the first group. */
  lemma LostRun(prog: seq<Instr>, acc: uint32, env: Env)
    requires |prog| == 267 && prog[0] == JumpIf(Test.NotEqual, 0, 254, 0) && prog[255] == Jump(7)
    requires prog[263] == RetConstant(REFUSED) && acc != 0
    ensures Run(prog, acc, env) == Verdict(REFUSED)
  {
    var jump, ret := prog[255..], prog[263..];
    assert jump[0] == prog[255] && jump[1 + 7..] == ret && ret[0] == prog[263];
    assert Run(jump, acc, env) == Run(ret, acc, env) == Verdict(REFUSED);
    assert prog[1 + 254..] == jump;
  }

  /** The tables after the first turns of `Assemble`. */
  lemma FirstTurns(o: Order) returns (nc: Label, x: Label, d: Code, e: Code, f: Code)
    requires Ready(Whole(Items(65, o)))
    ensures var c := Whole(Items(65, o));
            && Begins(c, nc, x) && JumpPlaced(d, nc, x) && JumpLost(f) && Ready(d) && Ready(e) && Ready(f)
            && |c.jumps| == |d.jumps| == |e.jumps| == |f.jumps| == 132
            && ResolveJump(c, 0) == (d, None) && ResolveJump(d, 1) == (e, None) && ResolveJump(e, 2) == (f, None)
            && AssembleFrom(c, 0) == AssembleFrom(f, 3)
    ensures |e.instrs| == 266 && Way(e, e.jumps[2].onTrue, e.jumps[2].index) == Some(262)
    ensures e.jumps[2].index == 4 && InsertionPoint(e.jumps, e.jumps[2]).index == 257
  {
    hide Ready, Whole, Items, ResolveJump, Begins, JumpPlaced, AllNear, Way, InsertionPoint;
    var c := Whole(Items(65, o));
    nc, x := ItBegins(o);
    BeginsLong(c, nc, x);
    AssembleFromStep(c, 0);
    d := FirstTurn(c, nc, x);
    PlacedLong(d, nc, x);
    AssembleFromStep(d, 1);
    e, f := NextTurns(d, nc, x);
    AssembleFromStep(e, 2);
  }

  lemma BodyRefuses(o: Order, acc: uint32, env: Env)
    requires Ready(Whole(Items(65, o))) && acc != 0
    ensures Run(AssembleFrom(Whole(Items(65, o)), 0).0.instrs, acc, env) == Verdict(REFUSED)
  {
    hide Ready, Whole, Items, ResolveJump, Begins, JumpPlaced, AllNear, Run, AssembleFrom, Way, InsertionPoint;
    var nc, x, d, e, f := FirstTurns(o);
    AssembleInsertsNothing(f, 3);
    LostRun(AssembleFrom(Whole(Items(65, o)), 0).0.instrs, acc, env);
  }

  lemma BeginsLong(c: Code, nc: Label, x: Label)
    requires Begins(c, nc, x)
    ensures |c.jumps| == 132
  {}

  lemma PlacedLong(c: Code, nc: Label, x: Label)
    requires JumpPlaced(c, nc, x)
    ensures |c.jumps| == 132
  {}

  // ---- the policy ----

  lemma GroupsMerged(n: nat)
    requires n > 0
    ensures MergeGroup(TwoGroups(n)[0], TWO_CALLS) == Merged([Entry(0, Sets(IS, n))], [])
    ensures MergeGroup(TwoGroups(n)[1], TWO_CALLS) == Merged([Entry(1, [])], [])
  {
    hide MergeGroup, Sets;
    FirstGroupMerged(n);
    SecondGroupMerged();
  }

  lemma FirstGroupMerged(n: nat)
    requires n > 0
    ensures MergeGroup(TwoGroups(n)[0], TWO_CALLS) == Merged([Entry(0, Sets(IS, n))], [])
  {
    SetsAre(IS, n);
    assert Sets(IS, n) != [];
    hide Number, Sets;
    NumbersOfTwoCalls();
    assert MergeNames(TWO_CALLS, []) == Merged([], []);
    AlternativesMerge(TWO_CALLS, [], "read", Sets(IS, n));
  }

  lemma SecondGroupMerged()
    ensures MergeGroup(SyscallGroup(["write"], [], ACTION_TRAP), TWO_CALLS) == Merged([Entry(1, [])], [])
  {
    hide Number;
    NumbersOfTwoCalls();
    assert MergeNames(TWO_CALLS, []) == Merged([], []);
    assert ["write"][..0] == [];
    assert MergeNames(TWO_CALLS, ["write"]) == Merged([Entry(1, [])], []);
  }

  lemma SecondGroupItems(a: Label, o: Order)
    ensures GroupItems([Entry(1, [])], ACTION_TRAP, a, o)
            == Emitted([Second(a), Mark(a + 1), Return(ACTION_TRAP), Mark(a + 2)], a + 2)
  {
    var e := Entry(1, []);
    assert [e][1..] == [];
    assert EntriesItems([], a + 1, a + 2, a + 2, o) == Emitted([], a + 2);
    assert EntriesItems([e], a + 1, a + 2, a + 2, o) == Emitted([Second(a)] + [], a + 2);
  }

  lemma FirstGroupItems(n: nat, o: Order)
    requires n > 0
    ensures GroupItems([Entry(0, Sets(IS, n))], ACTION_ERRNO, 1, o)
            == Emitted(Front(IS, n, o) + [Mark(2), Return(REFUSED), Mark(3)], LastLabel(n, o))
  {
    hide SetsItems, EntriesItems, Sets;
    var e := Entry(0, Sets(IS, n));
    OneEntryItems(e, o);
    assert EntryItems(e, false, 2, 3, 3, o)
        == Emitted(CheckTrue(Test.NotEqual, 0, 3, 4) + Checks(IS, n, o) + [], LastLabel(n, o));
    assert CheckTrue(Test.NotEqual, 0, 3, 4) + Checks(IS, n, o) + [] == Front(IS, n, o);
  }

  lemma TwoGroupsItems(n: nat, o: Order)
    requires n > 0
    ensures GroupsItems(TwoGroups(n), TWO_CALLS, 1, o).Ok?
    ensures PolicyItems(TwoGroups(n), ACTION_ALLOW, TWO_CALLS, o) == Items(n, o)
  {
    hide MergeGroup, GroupItems, Front, Sets;
    GroupsMerged(n);
    FirstGroupItems(n, o);
    SecondGroupItems(LastLabel(n, o), o);
    var groups := TwoGroups(n);
    var a := LastLabel(n, o);
    assert groups[1..][0] == groups[1] && |groups[1..][1..]| == 0;
    assert GroupsItems([], TWO_CALLS, a + 2, o) == Ok(Emitted([], a + 2));
    var second := [Second(a), Mark(a + 1), Return(ACTION_TRAP), Mark(a + 2)];
    assert GroupsItems(groups[1..], TWO_CALLS, a, o) == Ok(Emitted(second + [], a + 2));
    var first := Front(IS, n, o) + [Mark(2), Return(REFUSED), Mark(3)];
    assert GroupsItems(groups, TWO_CALLS, 1, o) == Ok(Emitted(first + (second + []), a + 2));
    assert first + (second + []) + [Return(ACTION_ALLOW)] == Items(n, o);
  }

  lemma TwoGroupsGiven(n: nat)
    requires n > 0
    ensures NonemptyConditions(TwoGroups(n))
    ensures forall k :: 0 <= k < |TwoGroups(n)| ==> MergeGroup(TwoGroups(n)[k], TWO_CALLS).problems == []
    ensures PolicySize(TwoGroups(n), TWO_CALLS) == 4 * n + 5
  {
    hide MergeGroup, SetsSize;
    GroupsMerged(n);
    SetsSizeOf(IS, n);
    assert SetsSize([]) == 0 by { NoSize(); }
    var groups := TwoGroups(n);
    var e, f := Entry(0, Sets(IS, n)), Entry(1, []);
    assert |[e][1..]| == 0 && |[f][1..]| == 0 && EntriesSize([e]) == 4 * n + 1 && EntriesSize([f]) == 1;
    assert groups[1..][0] == groups[1] && |groups[1..][1..]| == 0;
    assert PolicySize(groups[1..], TWO_CALLS) == 3;
  }

  lemma NoSize()
    ensures SetsSize([]) == 0
  {}

  /** With 65 alternatives every call but `read` is refused with the error meant for `read`: `write` is not trapped, and no other
      call is allowed. The number check skips to a long jump that was right when it was inserted; the copy of a return inserted
      later has moved its destination by one, and it lands on the return of the first group. */
  lemma MisjumpPolicy(o: Order, acc: uint32, d: SeccompData)
    requires d.arch == X86_64_ID && 0 < d.nr < X32_SYSCALL_BIT
    ensures Filter(TwoGroups(65), ACTION_ALLOW, TWO_CALLS, o).Ok?
    ensures PlainVerdict(TwoGroups(65), ACTION_ALLOW, TWO_CALLS, d) == if d.nr == 1 then ACTION_TRAP else ACTION_ALLOW
    ensures Run(Filter(TwoGroups(65), ACTION_ALLOW, TWO_CALLS, o).value, acc, EnvOf(d, o)) == Verdict(ACTION_ERRNO + EPERM)
  {
    hide Filter, AssembleFrom, Whole, Items, Run, EnvOf, FirstMatch, Prologue, Ready, PolicySize, GroupsItems, TwoGroups;
    TwoGroupsGiven(65);
    NonemptyIsUseful(TwoGroups(65), TWO_CALLS);
    FilterAccepts(TwoGroups(65), ACTION_ALLOW, TWO_CALLS, o);
    var body := FilterBody(TwoGroups(65), ACTION_ALLOW, TWO_CALLS, o);
    TwoGroupsItems(65, o);
    PrologueRuns(TWO_CALLS, body, d, o, acc);
    BodyRefuses(o, d.nr, EnvOf(d, o));
    PlainOthers(65, d);
  }

  lemma PlainOthers(n: nat, d: SeccompData)
    requires d.nr != 0
    ensures FirstMatch(TwoGroups(n), ACTION_ALLOW, TWO_CALLS, d) == if d.nr == 1 then ACTION_TRAP else ACTION_ALLOW
  {
    hide Number, Sets;
    NumbersOfTwoCalls();
    var groups := TwoGroups(n);
    var g, h := groups[0], groups[1];
    assert !GroupMatches(g, TWO_CALLS, d.nr, d);
    assert h.names[0] == "write";
    assert GroupMatches(h, TWO_CALLS, d.nr, d) <==> d.nr == 1;
    var rest := groups[1..];
    assert rest[0] == h && rest[1..] == [];
    assert FirstMatch([], ACTION_ALLOW, TWO_CALLS, d) == ACTION_ALLOW;
    assert FirstMatch(rest, ACTION_ALLOW, TWO_CALLS, d) == if d.nr == 1 then ACTION_TRAP else ACTION_ALLOW;
  }

  // ---- up to 64 alternatives ----

  /** In the tables only the number check can be far: the other branches are at most 254 instructions long. */
  lemma OthersNear(n: nat, o: Order, q: nat, b: bool)
    requires 0 < n <= 64 && 0 < q < |Whole(Items(n, o)).jumps|
    ensures var c := Whole(Items(n, o)); BranchWay(c, q, b).Some? ==> Reaches(c, q, b, if n < 64 then 255 else 254)
  {
    hide Whole, Front, Way, JumpsOf, Tail, Dist, Size, Marks, Checks, InstrsOf, SetsItems, Sets;
    var c, a := Whole(Items(n, o)), LastLabel(n, o);
    LastLabelLater(n, o);
    TailJumps(a, 4 * n + 1);
    TailDistances(a);
    ProgramTables(IS, n, o, Tail(a));
    ChecksTables(IS, n, o);
    ShortInTables(n, o, q);
    var i := c.jumps[q].index;
    if i <= 4 * n {
      WayToTail(IS, n, o, Tail(a), 2, i);
    }
  }

  lemma NumberCheckWays(n: nat, o: Order)
    requires n > 0
    ensures var c := Whole(Items(n, o));
            && |c.jumps| > 0 && c.jumps[0] == JumpRef(0, 3, 4)
            && BranchWay(c, 0, true) == Some(4 * n + 2) && BranchWay(c, 0, false) == Some(1)
  {
    hide Whole, Front, Way, JumpsOf, Tail, Dist, Size, Marks, Checks, InstrsOf;
    var t := Tail(LastLabel(n, o));
    TailDistances(LastLabel(n, o));
    ProgramTables(IS, n, o, t);
    WayToTail(IS, n, o, t, 3, 0);
    WayToChecks(IS, n, o, t);
  }

  /** With up to 64 alternatives, that is a system call of up to 257 instructions, the filter returns the evaluator's verdict on
      every record; with 65 it does not. */
  lemma SixtyFourAlternatives(n: nat, o: Order)
    requires 0 < n <= 65
    ensures Faithful(TwoGroups(n), ACTION_ALLOW, TWO_CALLS, o) <==> n <= 64
  {
    hide Faithful, TwoGroups;
    if n <= 64 {
      UpTo64(n, o);
    } else {
      Not65(o);
    }
  }

  lemma UpTo64(n: nat, o: Order)
    requires 0 < n <= 64
    ensures Faithful(TwoGroups(n), ACTION_ALLOW, TWO_CALLS, o)
  {
    hide Faithful, TwoGroups, Whole, GroupsItems, AtMostFirstFar, Evaluable, PolicySize, Items;
    TwoGroupsEvaluable(n);
    TwoGroupsGiven(n);
    TwoGroupsItems(n, o);
    FirstCheckFar(n, o);
    FirstFarIsFaithful(TwoGroups(n), ACTION_ALLOW, TWO_CALLS, o);
  }

  lemma Not65(o: Order)
    ensures !Faithful(TwoGroups(65), ACTION_ALLOW, TWO_CALLS, o)
  {
    hide Faithful, TwoGroups, Evaluable, Filter, FilterVerdict, PlainVerdict, Run, EnvOf;
    var d: SeccompData := Record(1, X86_64_ID, 0, [0, 0, 0, 0, 0, 0]);
    TwoGroupsEvaluable(65);
    MisjumpPolicy(o, 0, d);
    WriteIsTrapped(d);
    NotFaithful(TwoGroups(65), ACTION_ALLOW, TWO_CALLS, o, 0, d);
  }

  lemma TwoGroupsEvaluable(n: nat)
    requires n > 0
    ensures Evaluable(TwoGroups(n), TWO_CALLS)
  {
    SetsAre(IS, n);
    hide MergeGroup, Sets;
    GroupsMerged(n);
    forall k | 0 <= k < |TwoGroups(n)| ensures EvaluableGroup(TwoGroups(n)[k], TWO_CALLS) {
    }
  }

  lemma WriteIsTrapped(d: SeccompData)
    requires d.arch == X86_64_ID && d.nr == 1 && Evaluable(TwoGroups(65), TWO_CALLS)
    ensures FilterVerdict(TwoGroups(65), ACTION_ALLOW, TWO_CALLS, d) == ACTION_TRAP
  {
    SetsAre(IS, 65);
    hide MergeGroup, Sets, ThreadEntries;
    GroupsMerged(65);
    var groups := TwoGroups(65);
    assert groups[1..][0] == groups[1];
    EvaluableTail(groups, TWO_CALLS);
    OneComparison(Entry(0, Sets(IS, 65)), 1, d);
    OneComparison(Entry(1, []), 1, d);
    assert !EmptyGroup(groups[0]) && !EmptyGroup(groups[1]);
    assert ThreadGroups(groups[1..], ACTION_ALLOW, TWO_CALLS, 1, d) == ReturnValue(ACTION_TRAP);
    assert ThreadGroups(groups, ACTION_ALLOW, TWO_CALLS, 1, d) == ReturnValue(ACTION_TRAP);
  }

  lemma OneComparison(e: Entry, acc: uint32, d: SeccompData)
    requires ValidSets(e.conditions) && NonemptySets(e.conditions) && (e.num == acc ==> e.conditions == [])
    ensures ThreadEntries([e], acc, d) == if e.num == acc then Matched else Missed(acc)
  {
    assert [e][1..] == [];
    assert ThreadEntries([], acc, d) == Missed(acc);
  }

  lemma FirstCheckFar(n: nat, o: Order)
    requires 0 < n <= 64 && GroupsItems(TwoGroups(n), TWO_CALLS, 1, o).Ok?
    requires PolicyItems(TwoGroups(n), ACTION_ALLOW, TWO_CALLS, o) == Items(n, o) && NonemptyConditions(TwoGroups(n))
    ensures AtMostFirstFar(Whole(Items(n, o)))
  {
    hide Whole, Items, Way, TwoGroups, GroupsItems, Open, NonemptyConditions, Ready;
    NonemptyIsUseful(TwoGroups(n), TWO_CALLS);
    PolicyOpen(TwoGroups(n), ACTION_ALLOW, TWO_CALLS, o);
    NumberCheckWays(n, o);
    var c, m := Whole(Items(n, o)), if n < 64 then 255 else 254;
    forall q | 0 < q < |c.jumps| ensures Near(c, q, m) {
      OpenWays(c, q);
      OthersNear(n, o, q, true);
      OthersNear(n, o, q, false);
    }
  }

  // ---- its long jump ----

  /** After the long jump, one more instruction is inserted: the copy of a return at 258. */
  lemma LaterInsertions(o: Order)
    requires Ready(Whole(Items(65, o)))
    ensures var c := Whole(Items(65, o));
            |c.jumps| > 0 && AssembleFrom(c, 0).1.None? && Later(c, 0, true) == [258]
  {
    hide Ready, Whole, Items, ResolveJump, AllNear, AssembleFrom, Way, InsertionPoint, Insertions, TurnInsertions, Later, Turn;
    var c := Whole(Items(65, o));
    var nc, x, d, e, f := FirstTurns(o);
    TurnCount(c, 0);
    FirstLater(c);
    InsertionsStep(d, 1);
    TurnCount(d, 1);
    InsertionsStep(e, 2);
    OneInsertion(e, 2);
    AssembleInsertsNothing(f, 3);
    AssembleCount(f, 3);
    FirstsSucceed(o);
  }

  lemma FirstsSucceed(o: Order)
    ensures GroupsItems(TwoGroups(65), TWO_CALLS, 1, o).Ok? && Ready(Whole(Items(65, o)))
    ensures AssembleFrom(Whole(Items(65, o)), 0).1.None?
  {
    hide TwoGroups, Items, Whole, GroupsItems, Ready, PolicySize, AssembleFrom, Prologue;
    TwoGroupsGiven(65);
    TwoGroupsItems(65, o);
    NonemptyIsUseful(TwoGroups(65), TWO_CALLS);
    FilterAccepts(TwoGroups(65), ACTION_ALLOW, TWO_CALLS, o);
    PolicyReady(TwoGroups(65), ACTION_ALLOW, TWO_CALLS, o);
  }

  /** The long jump is made for the first instruction, so the later insertion in front of its destination is what makes it miss:
      it stands at 255, and its destination, the check for `write`, at 264. */
  lemma LongJumpMisses(o: Order, c: Code, f: seq<Instr>)
    requires c == Whole(Items(65, o)) && Ready(c) && f == AssembleFrom(c, 0).0.instrs
    ensures |c.jumps| > 0 && |c.instrs| > 262 && NeedsLongJump(c, 0, true)
    ensures JumpFrom(f, 255, 264, c.instrs[262]) && !LandsOn(f, 255, 264)
  {
    hide Ready, Whole, Items, AllNear, AssembleFrom, Later, JumpFrom, LandsOn, ResolveJump, JumpPlaced, InsertionPoint, Way;
    LaterInsertions(o);
    var nc, x, d, e, g := FirstTurns(o);
    AssembleInsertsNothing(g, 3);
    BeginsFar(c, nc, x);
    BeforeFirst(c);
    FirstMisses(c, f);
  }

  lemma BeforeFirst(c: Code)
    requires Ready(c) && |c.jumps| > 0
    ensures LongJumps.Before(c, 0, true) == c
  {
    hide Ready;
    assert Turn(c, 0) == c;
  }

  lemma BeginsFar(c: Code, nc: Label, x: Label)
    requires Ready(c) && Begins(c, nc, x)
    ensures |c.jumps| > 0 && |c.instrs| > 262 && c.jumps[0].index == 0
    ensures NeedsLongJump(c, 0, true) && Destination(c, 0, true) == 262 && InsertionPoint(c.jumps, c.jumps[0]).index == 254
  {
    hide Ready, Way, InsertionPoint;
    ReadyAscends(c);
    InsertionPointAtLeast(c.jumps, c.jumps[0], 127);
    InsertionPointRange(c, c.jumps[0]);
  }

  lemma FirstMisses(c: Code, f: seq<Instr>)
    requires Ready(c) && |c.jumps| > 0 && |c.instrs| > 262 && AssembleFrom(c, 0).1.None? && f == AssembleFrom(c, 0).0.instrs
    requires LongJumps.Before(c, 0, true) == c && Later(c, 0, true) == [258] && |f| < TWO_TO_32
    requires NeedsLongJump(c, 0, true) && Destination(c, 0, true) == 262 && InsertionPoint(c.jumps, c.jumps[0]).index == 254
    ensures JumpFrom(f, 255, 264, c.instrs[262]) && !LandsOn(f, 255, 264)
  {
    hide Ready, AssembleFrom, Later, JumpFrom, LandsOn, InsertionPoint, NeedsLongJump, Destination;
    assert Place(255, [258]) == 255 && Place(263, [258]) == 264 && !NoneBetween(255, 263, [258]) by { PlacesAround(); }
    LongJumpExactIff(c, 0, true, c, [258], f);
  }

  lemma PlacesAround()
    ensures Place(255, [258]) == 255 && Place(263, [258]) == 264 && !NoneBetween(255, 263, [258])
  {
    var none: seq<Index> := [];
    assert [258][1..] == none && Place(255, none) == 255 && Place(264, none) == 264;
  }
}
