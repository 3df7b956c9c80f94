/** A family of policies that all compile, and the exact member from which on the filter is wrong: one system call with
    `n` alternative conditions. */
module Overlong {
  import opened Results
  import opened Words
  import opened Bpf
  import opened Labelled
  import opened Assembler
  import opened Resolution
  import opened Policies
  import opened Merge
  import opened Codegen
  import opened Shapes
  import opened Compiler
  import opened Correctness
  import opened Plain
  import opened Sizes
  import opened Acceptance
  import opened Turns
  import opened Uniform
  import opened Limits

  const NOT: Comparing := Operation.NotEqual

  /** Refuse `read` when its first argument is not 0, a rule given `n` times over; allow the rest. */
  function Repeated(n: nat): seq<SyscallGroup> {
    [SyscallGroup([], Alternatives("read", Sets(NOT, n)), ACTION_ERRNO)]
  }

  /** `n` alternatives for one name merge into one entry with `n` sets. */
  lemma RepeatedMerge(n: nat)
    requires n >= 1
    ensures MergeGroup(Repeated(n)[0], TWO_CALLS) == Merged([Entry(0, Sets(NOT, n))], [])
  {
    hide Number, Sets;
    NumbersOfTwoCalls();
    SetsAre(NOT, n);
    assert MergeNames(TWO_CALLS, []) == Merged([], []);
    AlternativesMerge(TWO_CALLS, [], "read", Sets(NOT, n));
  }

  // ---- the whole program ----

  function Tail(): seq<Item> { [Mark(2), Return(REFUSED), Mark(3), Return(ACTION_ALLOW)] }

  function Items(n: nat, o: Order): seq<Item> { Front(NOT, n, o) + Tail() }

  lemma RepeatedItems(n: nat, o: Order)
    requires n >= 1
    ensures GroupsItems(Repeated(n), TWO_CALLS, 1, o).Ok?
    ensures PolicyItems(Repeated(n), ACTION_ALLOW, TWO_CALLS, o) == Items(n, o)
  {
    hide SetsItems, MergeGroup, EntriesItems, Sets;
    RepeatedMerge(n);
    var groups := Repeated(n);
    OneEntryItems(Entry(0, Sets(NOT, n)), o);
    var body := EntryItems(Entry(0, Sets(NOT, n)), false, 2, 3, 3, o).items;
    assert body == CheckTrue(Test.NotEqual, 0, 3, 4) + Checks(NOT, n, o);
    var head := GroupItems([Entry(0, Sets(NOT, n))], ACTION_ERRNO, 1, o);
    assert groups[1..] == [];
    assert GroupsItems([], TWO_CALLS, head.last, o) == Ok(Emitted([], head.last));
    assert GroupsItems(groups, TWO_CALLS, 1, o) == Ok(Emitted(head.items + [], head.last));
    assert PolicyItems(groups, ACTION_ALLOW, TWO_CALLS, o) == Items(n, o);
  }

  /** The tables of the program, as far as the argument needs them. */
  ghost predicate Begins(c: Code, n: nat) {
    && |c.instrs| == 4 * n + 3 && c.instrs[0] == JumpIf(Test.NotEqual, 0, 0, 0)
    && c.instrs[4 * n + 1] == RetConstant(REFUSED) && c.instrs[4 * n + 2] == RetConstant(ACTION_ALLOW)
    && |c.jumps| == 2 * n + 1 && (forall k :: 0 <= k < |c.jumps| ==> c.jumps[k].index == 2 * k)
    && n >= 2 && c.jumps[0] == JumpRef(0, 3, 4) && c.jumps[1].onTrue == 2 && c.jumps[1].onFalse !in {2, 3}
    && Way(c, 3, 0) == Some(4 * n + 2) && Way(c, 4, 0) == Some(1)
    && Way(c, 2, 2) == Some(4 * n + 1) && Way(c, c.jumps[1].onFalse, 2) == Some(3)
  }

  lemma TailTables(base: Index)
    ensures Size(Tail()) == 2 && InstrsOf(Tail()) == [RetConstant(REFUSED), RetConstant(ACTION_ALLOW)]
    ensures JumpsOf(Tail(), base) == []
    ensures Dist(Tail(), 2) == 0 && Dist(Tail(), 3) == 1 && Marks(Tail(), 2) && Marks(Tail(), 3)
  {
    NoBranches(Tail(), base);
    var t := Tail();
    assert t[0] == Mark(2) && t[2] == Mark(3);
    var t3 := [Return(ACTION_ALLOW)];
    var t2 := [Mark(3)] + t3;
    var t1 := [Return(REFUSED)] + t2;
    assert t == [Mark(2)] + t1 && t[1..] == t1 && t1[1..] == t2 && t2[1..] == t3 && t3[1..] == [];
    assert InstrsOf(t3) == [RetConstant(ACTION_ALLOW)] && InstrsOf(t2) == InstrsOf(t3);
    assert Dist(t2, 3) == 0 && Dist(t1, 3) == 1;
  }

  lemma ItBegins(n: nat, o: Order)
    requires n >= 2
    ensures Begins(Whole(Items(n, o)), n)
  {
    hide Whole, Front, Way, JumpsOf, Tail, Dist, Size, Marks, Checks, InstrsOf;
    var c := Whole(Items(n, o));
    TailTables(4 * n + 1);
    ProgramTables(NOT, n, o, Tail());
    ChecksTables(NOT, n, o);
    WayToTail(NOT, n, o, Tail(), 2, 2);
    WayToTail(NOT, n, o, Tail(), 3, 0);
    WayToChecks(NOT, n, o, Tail());
    var nc, x := FirstAlternative(NOT, n, o, Tail());
    assert c.instrs[4 * n + 1] == c.instrs[4 * n + 1..][0] && c.instrs[4 * n + 2] == c.instrs[4 * n + 1..][1];
  }

  // ---- resolving it ----

  /** After the first jump: a copy of the default return stands at 255, and the number check skips to it. */
  ghost predicate OneCopy(c: Code, n: nat) {
    && |c.instrs| == 4 * n + 4 && c.instrs[0] == JumpIf(Test.NotEqual, 0, 254, 0) && c.instrs[4 * n + 2] == RetConstant(REFUSED)
    && n >= 64 && c.instrs[255] == RetConstant(ACTION_ALLOW)
    && |c.jumps| == 2 * n + 1 && (forall k :: 0 <= k < |c.jumps| ==> c.jumps[k].index == if k <= 127 then 2 * k else 2 * k + 1)
    && c.jumps[1].onTrue == 2 && c.jumps[1].onFalse != 2
    && Way(c, 2, 2) == Some(4 * n + 2) && Way(c, c.jumps[1].onFalse, 2) == Some(3)
  }

  lemma FirstResolved(c: Code, n: nat) returns (d: Code)
    requires Ready(c) && Begins(c, n) && n >= 64
    ensures ResolveJump(c, 0) == (d, None) && Ready(d) && OneCopy(d, n)
  {
    hide Ready, ResolveJump, Way;
    ReadyAscends(c);
    InsertionPointAtLeast(c.jumps, c.jumps[0], 127);
    var x := c.jumps[1].onFalse;
    var at, inst;
    d, at, inst := FarNear(c, 0);
    assert at == 255;
    assert Way(d, 2, ShiftIndex(2, at)) == WayPast(c, 3, at, 2, 2);
    assert Way(d, x, ShiftIndex(2, at)) == WayPast(c, 3, at, x, 2);
  }

  lemma SecondResolved(c: Code, n: nat) returns (d: Code)
    requires Ready(c) && OneCopy(c, n) && n >= 65
    ensures ResolveJump(c, 1) == (d, None) && Ready(d) && Settled(d, 2, 128, JumpIf(Test.NotEqual, 0, 254, 0), REFUSED)
  {
    hide Ready, ResolveJump, Way;
    ReadyAscends(c);
    InsertionPointAtLeast(c.jumps, c.jumps[1], 127);
    InsertionPointRange(c, c.jumps[1]);
    var k :| 0 <= k < |c.jumps| && c.jumps[k] == InsertionPoint(c.jumps, c.jumps[1]);
    assert k == 127;
    var at, inst;
    d, at, inst := FarNear(c, 1);
    assert at == 255 && inst == RetConstant(REFUSED);
    assert d.instrs[255] == inst;
    assert d.jumps[2].index == 4 && d.jumps[128].index == 258;
  }

  /** With 64 alternatives the first check of the first one is just within reach of the return, and so are all others. */
  lemma NothingElseFar(c: Code)
    requires Ready(c) && OneCopy(c, 64)
    ensures AllNear(c, 1)
  {
    forall q | 1 <= q < |c.jumps| ensures NearWays(c, q) {
      var j := c.jumps[q];
      if q > 1 {
        WayInside(c, j.onTrue, j.index);
        WayInside(c, j.onFalse, j.index);
      }
    }
  }

  /** From 64 alternatives on, the number check skips to 255; with more than 64, the wrong return stands there. */
  lemma BodyDecides(n: nat, o: Order, acc: uint32, env: Env)
    requires n >= 64 && Ready(Whole(Items(n, o))) && acc != 0
    ensures Run(AssembleFrom(Whole(Items(n, o)), 0).0.instrs, acc, env) == Verdict(if n == 64 then ACTION_ALLOW else REFUSED)
  {
    hide Ready, Whole, Items, ResolveJump, Begins, OneCopy, Run;
    var c := Whole(Items(n, o));
    ItBegins(n, o);
    BeginsLong(c, n);
    var d := FirstResolved(c, n);
    AssembleFromStep(c, 0);
    BeginsSecond(d, n);
    if n == 64 {
      NothingElseFar(d);
      AssembleInsertsNothing(d, 1);
      OneCopyHas(d, n);
      SkipRun(AssembleFrom(c, 0).0.instrs, Test.NotEqual, 0, ACTION_ALLOW, acc, env);
    } else {
      var e := SecondResolved(d, n);
      AssembleFromStep(d, 1);
      AssembleKeepsSettled(e, 2, 128, JumpIf(Test.NotEqual, 0, 254, 0), REFUSED);
      SkipRun(AssembleFrom(c, 0).0.instrs, Test.NotEqual, 0, REFUSED, acc, env);
    }
  }

  lemma BeginsLong(c: Code, n: nat)
    requires Begins(c, n)
    ensures |c.jumps| > 2
  {}

  lemma OneCopyHas(c: Code, n: nat)
    requires OneCopy(c, n)
    ensures |c.instrs| > 255 && c.instrs[0] == JumpIf(Test.NotEqual, 0, 254, 0) && c.instrs[255] == RetConstant(ACTION_ALLOW)
    ensures |c.jumps| > 1 && c.jumps[1].index == 2
  {}

  lemma BeginsSecond(c: Code, n: nat)
    requires OneCopy(c, n)
    ensures |c.jumps| > 2
  {}

  // ---- the filter ----

  lemma RepeatedMerges(n: nat)
    requires n >= 1
    ensures NonemptyConditions(Repeated(n))
    ensures forall k :: 0 <= k < |Repeated(n)| ==> MergeGroup(Repeated(n)[k], TWO_CALLS).problems == []
  {
    hide MergeGroup;
    RepeatedMerge(n);
  }

  lemma RepeatedSafe(n: nat)
    requires 1 <= n <= 63
    ensures SafeGroups(Repeated(n), TWO_CALLS) && |Comparisons(Repeated(n), TWO_CALLS)| == 1
  {
    hide MergeGroup, SetsSize;
    RepeatedMerge(n);
    SetsSizeOf(NOT, n);
    var e := Entry(0, Sets(NOT, n));
    assert MergeGroup(Repeated(n)[0], TWO_CALLS).entries == [e];
    assert NonemptySets(Sets(NOT, n)) && BlockSize(e) == 1 + 4 * n;
    TaggedEntries([e], ACTION_ERRNO);
    assert Repeated(n)[1..] == [];
  }

  /** A policy that refuses `read` when its first argument is not 0, a rule given `n` times over. For every other call the
      filter does what the policy says if and only if `n` is at most 64: from 65 on a copy of the group's return is placed
      where the number check already skips to. */
  lemma OverlongIff(n: nat, o: Order, acc: uint32, d: SeccompData)
    requires 1 <= n < 0x1000_0000 && d.arch == X86_64_ID && 0 < d.nr < X32_SYSCALL_BIT
    ensures Filter(Repeated(n), ACTION_ALLOW, TWO_CALLS, o).Ok?
    ensures (Run(Filter(Repeated(n), ACTION_ALLOW, TWO_CALLS, o).value, acc, EnvOf(d, o))
             == Verdict(PlainVerdict(Repeated(n), ACTION_ALLOW, TWO_CALLS, d))) <==> n <= 64
  {
    hide Filter, AssembleFrom, Whole, Items, Run, EnvOf, FirstMatch, Prologue, Ready, SafeGroups, Comparisons,
      PolicySize, Fits, GroupsItems;
    RepeatedMerges(n);
    NonemptyIsUseful(Repeated(n), TWO_CALLS);
    FilterAccepts(Repeated(n), ACTION_ALLOW, TWO_CALLS, o);
    var body := FilterBody(Repeated(n), ACTION_ALLOW, TWO_CALLS, o);
    RepeatedItems(n, o);
    RepeatedFits(n);
    if n <= 63 {
      RepeatedSafe(n);
      FilterIsFirstMatch(Repeated(n), ACTION_ALLOW, TWO_CALLS, o, acc, d);
    } else {
      PrologueRuns(TWO_CALLS, body, d, o, acc);
      BodyDecides(n, o, d.nr, EnvOf(d, o));
      OthersAllowed(n, d);
    }
  }

  lemma RepeatedFits(n: nat)
    requires 1 <= n < 0x1000_0000
    ensures 3 * PolicySize(Repeated(n), TWO_CALLS) + 6 < TWO_TO_32 && Fits(Repeated(n), TWO_CALLS)
  {
    hide MergeGroup, SetsSize;
    RepeatedMerge(n);
    SetsSizeOf(NOT, n);
    var es := [Entry(0, Sets(NOT, n))];
    assert MergeGroup(Repeated(n)[0], TWO_CALLS).entries == es;
    assert |es[1..]| == 0 && EntriesSize(es) == 1 + 4 * n;
    assert |Repeated(n)[1..]| == 0;
  }

  lemma OthersAllowed(n: nat, d: SeccompData)
    requires d.nr != 0
    ensures FirstMatch(Repeated(n), ACTION_ALLOW, TWO_CALLS, d) == ACTION_ALLOW
  {
    hide Number;
    NumbersOfTwoCalls();
    assert Repeated(n)[1..] == [];
  }
}
