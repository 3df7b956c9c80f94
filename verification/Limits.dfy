/** A policy whose filter takes an argument for a system-call number. */
module Limits {
  import opened Words
  import opened Bpf
  import opened Policies
  import opened Merge
  import opened Shapes
  import opened Compiler
  import opened Correctness
  import opened Plain

  const TWO_CALLS := ArchInfo(X86_64_ID, map["read" := 0, "write" := 1], 0)

  /** Kill on `read` from descriptor 5, refuse `write`, allow the rest. */
  const READ_THEN_WRITE: seq<SyscallGroup> := [
    SyscallGroup([], [NameWithConditions("read", [Condition(0, Operation.Equal, 5)])], ACTION_KILL_PROCESS),
    SyscallGroup(["write"], [], ACTION_ERRNO)]

  const READ_FROM_ONE: SeccompData := Record(0, X86_64_ID, 0, [1, 0, 0, 0, 0, 0])

  lemma NumbersOfTwoCalls()
    ensures Number(TWO_CALLS, "read") == 0 && Number(TWO_CALLS, "write") == 1
  {}

  lemma MergedRead()
    ensures MergeGroup(READ_THEN_WRITE[0], TWO_CALLS) == Merged([Entry(0, [[Condition(0, Operation.Equal, 5)]])], [])
  {
    NumbersOfTwoCalls();
    var ncs := READ_THEN_WRITE[0].withConditions;
    assert ncs[..0] == [];
    assert MergeConditionals(TWO_CALLS, [], []).entries == [];
    assert ValidSet(ncs[0].conditions);
  }

  lemma MergedWrite()
    ensures MergeGroup(READ_THEN_WRITE[1], TWO_CALLS) == Merged([Entry(1, [])], [])
  {
    NumbersOfTwoCalls();
    var names := READ_THEN_WRITE[1].names;
    assert names[..0] == [];
    assert MergeNames(TWO_CALLS, []).entries == [];
  }

  lemma ReadThenWriteSafe()
    ensures SafeGroups(READ_THEN_WRITE, TWO_CALLS)
  {
    hide MergeGroup;
    MergedRead();
    MergedWrite();
    var cs := [Condition(0, Operation.Equal, 5)];
    assert cs[1..] == [];
    assert SetSize(cs) == 4;
    var sets: seq<ConditionSet> := [cs];
    assert |sets[1..]| == 0 && SetsSize(sets) == 4;
  }

  lemma ReadThenWriteFits()
    ensures SafeGroups(READ_THEN_WRITE, TWO_CALLS) && Fits(READ_THEN_WRITE, TWO_CALLS)
  {
    hide Filter, MergeGroup, SafeGroups;
    ReadThenWriteSafe();
    MergedRead();
    MergedWrite();
    var cs := [Condition(0, Operation.Equal, 5)];
    assert cs[1..] == [] && SetSize(cs) == 4;
    var sets: seq<ConditionSet> := [cs];
    assert |sets[1..]| == 0 && SetsSize(sets) == 4;
    var ours, theirs: seq<Entry> := [Entry(0, sets)], [Entry(1, [])];
    assert |ours[1..]| == 0 && EntriesSize(ours) == 5;
    assert |theirs[1..]| == 0 && EntriesSize(theirs) == 1;
    assert READ_THEN_WRITE[1..][0] == READ_THEN_WRITE[1] && READ_THEN_WRITE[1..][1..] == [];
    assert PolicySize(READ_THEN_WRITE[1..], TWO_CALLS) == 3;
    assert PolicySize(READ_THEN_WRITE, TWO_CALLS) == 9;
  }

  /** Reading from descriptor 1 is refused as a write: the failed condition leaves the descriptor in the accumulator, where
      the next comparison takes it for the number of `write`. */
  lemma ReadTakenForWrite(o: Order, acc: uint32)
    ensures Filter(READ_THEN_WRITE, ACTION_ALLOW, TWO_CALLS, o).Ok?
    ensures PlainVerdict(READ_THEN_WRITE, ACTION_ALLOW, TWO_CALLS, READ_FROM_ONE) == ACTION_ALLOW
    ensures Run(Filter(READ_THEN_WRITE, ACTION_ALLOW, TWO_CALLS, o).value, acc, EnvOf(READ_FROM_ONE, o))
            == Verdict(ACTION_ERRNO + EPERM)
  {
    hide Filter, MergeGroup, Run, EnvOf, SafeGroups, Evaluable, Fits;
    ReadThenWriteSafe();
    ReadThenWriteFits();
    CompilerCorrect(READ_THEN_WRITE, ACTION_ALLOW, TWO_CALLS, o, acc, READ_FROM_ONE);
    PlainReadAllowed();
    ThreadedReadRefused();
  }

  lemma PlainReadAllowed()
    ensures FirstMatch(READ_THEN_WRITE, ACTION_ALLOW, TWO_CALLS, READ_FROM_ONE) == ACTION_ALLOW
  {
    NumbersOfTwoCalls();
    var g := READ_THEN_WRITE[0];
    var c := g.withConditions[0].conditions[0];
    assert !Holds(c, READ_FROM_ONE);
    assert !GroupMatches(g, TWO_CALLS, 0, READ_FROM_ONE);
    assert !GroupMatches(READ_THEN_WRITE[1], TWO_CALLS, 0, READ_FROM_ONE);
    var rest := READ_THEN_WRITE[1..];
    assert rest[0] == READ_THEN_WRITE[1] && rest[1..] == [];
    assert FirstMatch(rest, ACTION_ALLOW, TWO_CALLS, READ_FROM_ONE) == ACTION_ALLOW;
  }

  lemma ThreadedReadRefused()
    ensures Evaluable(READ_THEN_WRITE, TWO_CALLS)
    ensures ThreadGroups(READ_THEN_WRITE, ACTION_ALLOW, TWO_CALLS, 0, READ_FROM_ONE) == ACTION_ERRNO + EPERM
  {
    hide MergeGroup, SafeGroups, Evaluable;
    ReadThenWriteSafe();
    SafeIsEvaluable(READ_THEN_WRITE, TWO_CALLS);
    MergedRead();
    MergedWrite();
    var c := Condition(0, Operation.Equal, 5);
    var e := Entry(0, [[c]]);
    assert !Holds(c, READ_FROM_ONE);
    assert [c][0] == c;
    assert !SetHolds([c], READ_FROM_ONE);
    assert !SomeSetHolds([[c]], READ_FROM_ONE);
    assert Leftover(c, READ_FROM_ONE) == 1;
    assert SetLeftover([c], READ_FROM_ONE) == 1;
    assert ThreadEntry(e, 0, READ_FROM_ONE) == Missed(1);
    var none: seq<Entry> := [];
    assert [e][1..] == none && [Entry(1, [])][1..] == none;
    assert ThreadEntries(none, 1, READ_FROM_ONE) == Missed(1);
    assert ThreadEntries([e], 0, READ_FROM_ONE) == Missed(1);
    EvaluableTail(READ_THEN_WRITE, TWO_CALLS);
    var rest := READ_THEN_WRITE[1..];
    assert rest[0] == READ_THEN_WRITE[1];
    assert ThreadEntry(Entry(1, []), 1, READ_FROM_ONE) == Matched;
    assert ThreadEntries([Entry(1, [])], 1, READ_FROM_ONE) == Matched;
    assert ThreadGroups(rest, ACTION_ALLOW, TWO_CALLS, 1, READ_FROM_ONE) == ACTION_ERRNO + EPERM;
  }
}
