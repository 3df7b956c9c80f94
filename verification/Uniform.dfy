/** One system call with `n` times the same alternative, a test whether its first argument is or is not 0: the code it takes,
    in front of anything. */
module Uniform {
  import opened Results
  import opened Words
  import opened Bpf
  import opened Labelled
  import opened Policies
  import opened Codegen
  import opened CodegenMeaning
  import opened Shapes
  import opened Tameness
  import opened Acceptance

  /** What a bare errno action returns. */
  const REFUSED: uint32 := ACTION_ERRNO + EPERM

  type Comparing = op: Operation | op.Equal? || op.NotEqual? witness Operation.Equal

  function Against0(op: Comparing): Condition { Condition(0, op, 0) }

  function Sets(op: Comparing, n: nat): (r: seq<ConditionSet>)
    ensures |r| == n
  {
    seq(n, _ => [Against0(op)])
  }

  lemma SetsAre(op: Comparing, n: nat)
    ensures ValidSets(Sets(op, n)) && NonemptySets(Sets(op, n))
  {}

  lemma {:induction false} SetsSizeOf(op: Comparing, n: nat)
    ensures SetsSize(Sets(op, n)) == 4 * n
  {
    if n > 0 {
      assert Sets(op, n)[1..] == Sets(op, n - 1);
      assert [Against0(op)][1..] == [];
      assert SetSize([Against0(op)]) == 4;
      SetsSizeOf(op, n - 1);
    }
  }

  // ---- one alternative ----

  function Hi0(op: Comparing, action: Label, nc: Label, x: Label): Item {
    Branch(Test.NotEqual, 0, if op.Equal? then nc else action, x)
  }

  function Lo0(op: Comparing, action: Label, nc: Label): Item { Branch(LowTest(op), 0, action, nc) }

  function LdHi(o: Order): Item { Labelled.Load(HiOffset(0, o)) }

  function LdLo(o: Order): Item { Labelled.Load(LoOffset(0, o)) }

  function OneSet(op: Comparing, action: Label, nc: Label, x: Label, o: Order): seq<Item> {
    [LdHi(o), Hi0(op, action, nc, x), Mark(x), LdLo(o), Lo0(op, action, nc)]
  }

  lemma SetIsOne(op: Comparing, action: Label, nc: Label, last: Label, o: Order)
    ensures SetItems([Against0(op)], action, nc, last, o) == Emitted(OneSet(op, action, nc, last + 1, o), last + 1)
  {
    assert [Against0(op)][1..] == [];
    assert SetItems([], action, nc, last + 1, o) == Emitted([], last + 1);
  }

  lemma ManyStep(op: Comparing, n: nat, action: Label, next: Label, last: Label, o: Order)
    requires n >= 1
    ensures var more := n > 1;
            var nc, x := if more then last + 1 else next, if more then last + 2 else last + 1;
            SetsItems(Sets(op, n), action, next, last, o).items
            == OneSet(op, action, nc, x, o) + MarkIf(more, nc) + SetsItems(Sets(op, n - 1), action, next, x, o).items
  {
    hide SetItems, MarkIf;
    assert Sets(op, n)[1..] == Sets(op, n - 1);
    SetIsOne(op, action, if n > 1 then last + 1 else next, if n > 1 then last + 1 else last, o);
  }

  lemma PairTables(ld: Item, br: Item, base: Index)
    requires ld.Load? && br.Branch?
    ensures Size([ld, br]) == 2 && JumpsOf([ld, br], base) == [JumpRef(base + 1, br.onTrue, br.onFalse)]
  {
    assert [ld, br][1..] == [br] && [br][1..] == [];
    assert Size([br]) == 1 && JumpsOf([br], base + 1) == [JumpRef(base + 1, br.onTrue, br.onFalse)];
  }

  lemma OneTables(op: Comparing, action: Label, nc: Label, x: Label, o: Order, base: Index)
    ensures Size(OneSet(op, action, nc, x, o)) == 4
    ensures var (hi, lo) := (Hi0(op, action, nc, x), Lo0(op, action, nc));
            JumpsOf(OneSet(op, action, nc, x, o), base)
            == [JumpRef(base + 1, hi.onTrue, hi.onFalse), JumpRef(base + 3, lo.onTrue, lo.onFalse)]
  {
    hide Size, JumpsOf, HiOffset, LoOffset, MarkIf;
    var hi, lo := [LdHi(o), Hi0(op, action, nc, x)], [LdLo(o), Lo0(op, action, nc)];
    PairTables(hi[0], hi[1], base);
    MarkTables(true, x, base + 2);
    PairTables(lo[0], lo[1], base + 2);
    SizeConcat(hi, MarkIf(true, x));
    SizeConcat(hi + MarkIf(true, x), lo);
    JumpsConcat(hi, MarkIf(true, x), base);
    JumpsConcat(hi + MarkIf(true, x), lo, base);
    OneSetParts(op, action, nc, x, o);
  }

  lemma OneSetParts(op: Comparing, action: Label, nc: Label, x: Label, o: Order)
    ensures OneSet(op, action, nc, x, o)
            == [LdHi(o), Hi0(op, action, nc, x)] + MarkIf(true, x) + [LdLo(o), Lo0(op, action, nc)]
  {}

  lemma MarkTables(more: bool, l: Label, base: Index)
    ensures Size(MarkIf(more, l)) == 0 && JumpsOf(MarkIf(more, l), base) == []
  {
    assert [Mark(l)][1..] == [];
  }

  /** Jumps at every second index from `base + 1` on. */
  predicate EverySecond(js: seq<JumpRef>, base: Index) { forall k :: 0 <= k < |js| ==> js[k].index == base + 1 + 2 * k }

  lemma JoinEverySecond(a: seq<JumpRef>, b: seq<JumpRef>, base: Index)
    requires EverySecond(a, base) && EverySecond(b, base + 2 * |a|)
    ensures EverySecond(a + [] + b, base)
  {}

  lemma {:induction false} ManyTables(op: Comparing, n: nat, action: Label, next: Label, last: Label, o: Order, base: Index)
    ensures var items := SetsItems(Sets(op, n), action, next, last, o).items;
            Size(items) == 4 * n && |JumpsOf(items, base)| == 2 * n && EverySecond(JumpsOf(items, base), base)
  {
    hide SetsItems, OneSet, MarkIf, Size, JumpsOf, Sets;
    if n == 0 {
      NoSetsItems(op, action, next, last, o, base);
    } else {
      var more := n > 1;
      var nc, x := if more then last + 1 else next, if more then last + 2 else last + 1;
      var one, mark := OneSet(op, action, nc, x, o), MarkIf(more, nc);
      var rest := SetsItems(Sets(op, n - 1), action, next, x, o).items;
      ManyStep(op, n, action, next, last, o);
      ManyTables(op, n - 1, action, next, x, o, base + 4);
      OneTables(op, action, nc, x, o, base);
      MarkTables(more, nc, base + 4);
      SizeConcat(one, mark);
      SizeConcat(one + mark, rest);
      JumpsConcat(one, mark, base);
      JumpsConcat(one + mark, rest, base);
      JoinEverySecond(JumpsOf(one, base), JumpsOf(rest, base + 4), base);
    }
  }

  lemma NoSetsItems(op: Comparing, action: Label, next: Label, last: Label, o: Order, base: Index)
    ensures var items := SetsItems(Sets(op, 0), action, next, last, o).items; Size(items) == 0 && JumpsOf(items, base) == []
  {
    assert Sets(op, 0) == [];
  }

  // ---- a program that starts with the call number 0 under these alternatives ----

  function NumberCheck(): Item { Branch(Test.NotEqual, 0, 3, 4) }

  function Checks(op: Comparing, n: nat, o: Order): seq<Item> { SetsItems(Sets(op, n), 2, 3, 4, o).items }

  function Front(op: Comparing, n: nat, o: Order): seq<Item> { [NumberCheck()] + ([Mark(4)] + Checks(op, n, o)) }

  lemma OneEntryItems(e: Entry, o: Order)
    ensures EntriesItems([e], 2, 3, 3, o) == EntryItems(e, false, 2, 3, 3, o)
  {
    assert [e][1..] == [];
    var head := EntryItems(e, false, 2, 3, 3, o);
    assert EntriesItems([], 2, 3, head.last, o) == Emitted([], head.last);
  }

  lemma ChecksTables(op: Comparing, n: nat, o: Order)
    ensures Size(Checks(op, n, o)) == 4 * n && |JumpsOf(Checks(op, n, o), 1)| == 2 * n
    ensures EverySecond(JumpsOf(Checks(op, n, o), 1), 1)
    ensures forall l: Label :: l <= 4 ==> !Marks(Checks(op, n, o), l)
  {
    hide SetsItems, MarkCount, Size, JumpsOf;
    ManyTables(op, n, 2, 3, 4, o, 1);
    SetsWithin(Sets(op, n), 2, 3, 4, o);
    forall l: Label | l <= 4 ensures !Marks(Checks(op, n, o), l) {
      MarkCountMarks(Checks(op, n, o), l);
    }
  }

  lemma FrontTables(op: Comparing, n: nat, o: Order)
    ensures Size(Front(op, n, o)) == 4 * n + 1
    ensures JumpsOf(Front(op, n, o), 0) == [JumpRef(0, 3, 4)] + JumpsOf(Checks(op, n, o), 1)
    ensures !Marks(Front(op, n, o), 2) && !Marks(Front(op, n, o), 3)
  {
    hide Size, JumpsOf, Checks;
    ChecksTables(op, n, o);
    assert !Marks(Checks(op, n, o), 2) && !Marks(Checks(op, n, o), 3);
    ItemTables(NumberCheck(), [Mark(4)] + Checks(op, n, o), 0);
    ItemTables(Mark(4), Checks(op, n, o), 1);
  }

  /** The tables of the front and a tail. */
  lemma ProgramTables(op: Comparing, n: nat, o: Order, t: seq<Item>)
    ensures var c := Whole(Front(op, n, o) + t);
            && |c.instrs| == 4 * n + 1 + Size(t) && c.instrs[0] == JumpIf(Test.NotEqual, 0, 0, 0)
            && c.instrs[4 * n + 1..] == InstrsOf(t)
            && c.jumps == [JumpRef(0, 3, 4)] + JumpsOf(Checks(op, n, o), 1) + JumpsOf(t, 4 * n + 1)
  {
    hide Whole, Size, JumpsOf, Checks, InstrsOf;
    var f := Front(op, n, o);
    FrontTables(op, n, o);
    WholeTables(f + t, 0);
    InstrsConcat(f, t);
    JumpsConcat(f, t, 0);
    HeadTables(NumberCheck(), [Mark(4)] + Checks(op, n, o), 0);
    assert InstrsOf(f)[0] == InstrOf(NumberCheck());
  }

  /** The labels behind the front: where every jump in front of them goes. */
  lemma WayToTail(op: Comparing, n: nat, o: Order, t: seq<Item>, l: Label, i: Index)
    requires l in {2, 3} && Marks(t, l) && i <= 4 * n
    ensures Way(Whole(Front(op, n, o) + t), l, i) == Some(4 * n + 1 + Dist(t, l))
  {
    hide Whole, Front, MarksOf, Dist, Marks, Size, FirstAfter, JumpsOf, InstrsOf, Positions;
    FrontTables(op, n, o);
    TailPositions(Front(op, n, o), t, l);
    FirstMark(t, 4 * n + 1, l);
    HeadIsFirst(MarksOf(t, 4 * n + 1, l), i);
  }

  lemma TailPositions(f: seq<Item>, t: seq<Item>, l: Label)
    requires !Marks(f, l)
    ensures Positions(Whole(f + t), l) == MarksOf(t, Size(f), l)
  {
    hide Whole, MarksOf, Marks, Size, JumpsOf, InstrsOf;
    WholeTables(f + t, l);
    MarksConcat(f, t, 0, l);
    GotoUnmarked(f, l);
    assert [] + MarksOf(t, Size(f), l) == MarksOf(t, Size(f), l);
  }

  lemma HeadIsFirst(ps: seq<Index>, i: Index)
    requires ps != [] && ps[0] > i
    ensures FirstAfter(ps, i) == Some(ps[0])
  {}

  lemma WayToChecks(op: Comparing, n: nat, o: Order, t: seq<Item>)
    ensures Way(Whole(Front(op, n, o) + t), 4, 0) == Some(1)
  {
    hide Whole, Checks, Way, Dist;
    var rest := [Mark(4)] + (Checks(op, n, o) + t);
    assert Front(op, n, o) + t == [] + [NumberCheck()] + rest;
    EmptySize();
    HereFirst(rest, 4);
    WayOfBranch([], NumberCheck(), rest, 4);
  }

  /** The first alternative: its two jumps, and where they go besides `action`. */
  lemma FirstAlternative(op: Comparing, n: nat, o: Order, t: seq<Item>) returns (nc: Label, x: Label)
    requires n >= 2
    ensures nc > 4 && x > 4 && nc != x
    ensures var c, (hi, lo) := Whole(Front(op, n, o) + t), (Hi0(op, 2, nc, x), Lo0(op, 2, nc));
            && |c.jumps| > 2 && c.jumps[1] == JumpRef(2, hi.onTrue, hi.onFalse)
            && c.jumps[2] == JumpRef(4, lo.onTrue, lo.onFalse)
            && Way(c, x, 2) == Some(3) && Way(c, nc, 2) == Some(5) && Way(c, nc, 4) == Some(5)
  {
    hide Whole, SetsItems, Sets, JumpsOf, Way, OneSet, InstrsOf, Size, Dist, Front;
    nc, x := 5, 6;
    ManyStep(op, n, 2, 3, 4, o);
    var more := [Mark(nc)] + SetsItems(Sets(op, n - 1), 2, 3, x, o).items;
    var one := OneSet(op, 2, nc, x, o);
    assert Checks(op, n, o) == one + more;
    OneTables(op, 2, nc, x, o, 1);
    JumpsConcat(one, more, 1);
    ProgramTables(op, n, o, t);
    FirstSizes(op, nc, x, o);
    var hi, lo := Hi0(op, 2, nc, x), Lo0(op, 2, nc);
    FrontSplit(op, n, nc, x, o, more, t);
    FirstWays([NumberCheck(), Mark(4), LdHi(o)], hi, x, LdLo(o), lo, nc, more + t);
  }

  lemma FrontSplit(op: Comparing, n: nat, nc: Label, x: Label, o: Order, more: seq<Item>, t: seq<Item>)
    requires Checks(op, n, o) == OneSet(op, 2, nc, x, o) + more
    ensures Front(op, n, o) + t
            == [NumberCheck(), Mark(4), LdHi(o)] + [Hi0(op, 2, nc, x)] + ([Mark(x), LdLo(o), Lo0(op, 2, nc)] + (more + t))
  {
    hide Checks;
  }

  lemma FirstSizes(op: Comparing, nc: Label, x: Label, o: Order)
    ensures Size([NumberCheck(), Mark(4), LdHi(o)]) == 2
    ensures Size([NumberCheck(), Mark(4), LdHi(o)] + [Hi0(op, 2, nc, x), Mark(x), LdLo(o)]) == 4
  {
    var pre, mid := [NumberCheck(), Mark(4), LdHi(o)], [Hi0(op, 2, nc, x), Mark(x), LdLo(o)];
    hide Size;
    assert pre == [NumberCheck(), Mark(4)] + [LdHi(o)];
    TwoSize(NumberCheck(), Mark(4));
    OneItem(LdHi(o));
    SizeConcat([NumberCheck(), Mark(4)], [LdHi(o)]);
    assert mid == [Hi0(op, 2, nc, x), Mark(x)] + [LdLo(o)];
    TwoSize(Hi0(op, 2, nc, x), Mark(x));
    OneItem(LdLo(o));
    SizeConcat([Hi0(op, 2, nc, x), Mark(x)], [LdLo(o)]);
    SizeConcat(pre, mid);
  }

  lemma FirstWays(pre: seq<Item>, hi: Item, x: Label, ld: Item, lo: Item, nc: Label, behind: seq<Item>)
    requires hi.Branch? && ld.Load? && lo.Branch? && behind != [] && behind[0] == Mark(nc) && x != nc
    requires Size(pre) == 2 && Size(pre + [hi, Mark(x), ld]) == 4
    ensures var c := Whole(pre + [hi] + ([Mark(x), ld, lo] + behind));
            Way(c, x, 2) == Some(3) && Way(c, nc, 2) == Some(5) && Way(c, nc, 4) == Some(5)
  {
    hide Whole, Size, Dist, Way, Marks;
    var rest := [Mark(x), ld, lo] + behind;
    HereFirst(rest, x);
    WayOfBranch(pre, hi, rest, x);
    HereFirst(behind, nc);
    NotMarkedInThree(x, ld, lo, nc);
    DistPast([Mark(x), ld, lo], behind, nc);
    MarksBehind([Mark(x), ld, lo], behind, nc);
    WayOfBranch(pre, hi, rest, nc);
    assert pre + [hi] + rest == (pre + [hi, Mark(x), ld]) + [lo] + behind;
    WayOfBranch(pre + [hi, Mark(x), ld], lo, behind, nc);
  }

  lemma NotMarkedInThree(x: Label, ld: Item, lo: Item, nc: Label)
    requires ld.Load? && lo.Branch? && x != nc
    ensures !Marks([Mark(x), ld, lo], nc) && Size([Mark(x), ld, lo]) == 2
  {
    assert [Mark(x), ld, lo] == [Mark(x), ld] + [lo];
    TwoSize(Mark(x), ld);
    OneItem(lo);
    SizeConcat([Mark(x), ld], [lo]);
  }
}
