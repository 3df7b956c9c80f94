/** When the filter's verdict is the plain one: the action of the first group that matches. */
module Plain {
  import opened Words
  import opened Bpf
  import opened Policies
  import opened Merge
  import opened Compiler
  import opened Correctness

  /** One comparison of the filter, with the action of its group. */
  datatype Comparison = Comparison(entry: Entry, action: uint32)

  function Tagged(es: seq<Entry>, action: uint32): seq<Comparison> {
    if es == [] then [] else [Comparison(es[0], action)] + Tagged(es[1..], action)
  }

  /** All comparisons of a policy, in order. */
  function Comparisons(groups: seq<SyscallGroup>, arch: ArchInfo): seq<Comparison> {
    if groups == [] then []
    else Tagged(MergeGroup(groups[0], arch).entries, groups[0].action) + Comparisons(groups[1..], arch)
  }

  predicate Usable(e: Entry) { ValidSets(e.conditions) && NonemptySets(e.conditions) }

  predicate AllUsable(cs: seq<Comparison>) { forall k :: 0 <= k < |cs| ==> Usable(cs[k].entry) }

  /** The comparisons in turn, sharing one accumulator. */
  function Thread(cs: seq<Comparison>, default: uint32, acc: uint32, d: SeccompData): uint32
    requires AllUsable(cs)
  {
    if cs == [] then ReturnValue(default)
    else
      match ThreadEntry(cs[0].entry, acc, d)
      case Matched => ReturnValue(cs[0].action)
      case Missed(a) => Thread(cs[1..], default, a, d)
  }

  /** The comparisons in turn, each against the system-call number. */
  function Compare(cs: seq<Comparison>, default: uint32, nr: uint32, d: SeccompData): uint32
    requires AllUsable(cs)
  {
    if cs == [] then ReturnValue(default)
    else if EntryMatches(cs[0].entry, nr, d) then ReturnValue(cs[0].action)
    else Compare(cs[1..], default, nr, d)
  }

  /** A conditional entry for the number at hand whose sets all fail: it leaves an argument half in the accumulator. */
  predicate Clobbers(e: Entry, nr: uint32, d: SeccompData)
    requires Usable(e)
  {
    e.conditions != [] && nr == e.num && !SomeSetHolds(e.conditions, d)
  }

  // ---- groups as comparisons ----

  lemma {:induction false} TaggedEntries(es: seq<Entry>, action: uint32)
    ensures |Tagged(es, action)| == |es|
    ensures forall k :: 0 <= k < |es| ==> Tagged(es, action)[k] == Comparison(es[k], action)
  {
    if es != [] {
      TaggedEntries(es[1..], action);
    }
  }

  lemma {:induction false} ThreadTagged(es: seq<Entry>, action: uint32, cs: seq<Comparison>, default: uint32,
                                        acc: uint32, d: SeccompData)
    requires ValidEntries(es) && NonemptyEntries(es) && AllUsable(cs)
    ensures AllUsable(Tagged(es, action) + cs)
    ensures Thread(Tagged(es, action) + cs, default, acc, d)
            == match ThreadEntries(es, acc, d)
               case Matched => ReturnValue(action)
               case Missed(a) => Thread(cs, default, a, d)
  {
    hide ThreadEntry;
    TaggedEntries(es, action);
    if es == [] {
      assert Tagged(es, action) + cs == cs;
    } else {
      var all := Tagged(es, action) + cs;
      assert all[1..] == Tagged(es[1..], action) + cs;
      var next := if ThreadEntry(es[0], acc, d).Missed? then ThreadEntry(es[0], acc, d).acc else acc;
      ThreadTagged(es[1..], action, cs, default, next, d);
    }
  }

  lemma ListMatchesStep(es: seq<Entry>, nr: uint32, d: SeccompData)
    requires es != [] && ValidEntries(es)
    ensures ValidEntries(es[1..]) && (ListMatches(es, nr, d) <==> EntryMatches(es[0], nr, d) || ListMatches(es[1..], nr, d))
  {
    if k :| 0 <= k < |es| && EntryMatches(es[k], nr, d) {
      if k > 0 {
        assert EntryMatches(es[1..][k - 1], nr, d);
      }
    }
    if k :| 0 <= k < |es[1..]| && EntryMatches(es[1..][k], nr, d) {
      assert EntryMatches(es[k + 1], nr, d);
    }
  }

  lemma {:induction false} CompareTagged(es: seq<Entry>, action: uint32, cs: seq<Comparison>, default: uint32,
                                         nr: uint32, d: SeccompData)
    requires ValidEntries(es) && NonemptyEntries(es) && AllUsable(cs)
    ensures AllUsable(Tagged(es, action) + cs)
    ensures Compare(Tagged(es, action) + cs, default, nr, d)
            == if ListMatches(es, nr, d) then ReturnValue(action) else Compare(cs, default, nr, d)
  {
    hide EntryMatches;
    TaggedEntries(es, action);
    if es == [] {
      assert Tagged(es, action) + cs == cs;
    } else {
      var all := Tagged(es, action) + cs;
      assert all[1..] == Tagged(es[1..], action) + cs;
      ListMatchesStep(es, nr, d);
      CompareTagged(es[1..], action, cs, default, nr, d);
    }
  }

  lemma EmptyMergesToNothing(g: SyscallGroup, arch: ArchInfo)
    requires EmptyGroup(g)
    ensures MergeGroup(g, arch).entries == []
  {}

  /** The evaluator of a policy is the evaluator of its comparisons. */
  lemma {:induction false} GroupsAsComparisons(groups: seq<SyscallGroup>, default: uint32, arch: ArchInfo,
                                               acc: uint32, d: SeccompData)
    requires Evaluable(groups, arch)
    ensures AllUsable(Comparisons(groups, arch))
    ensures ThreadGroups(groups, default, arch, acc, d) == Thread(Comparisons(groups, arch), default, acc, d)
  {
    hide Evaluable, EvaluableGroup, MergeGroup, ThreadEntries, Tagged;
    if groups != [] {
      EvaluableTail(groups, arch);
      var es, action := MergeGroup(groups[0], arch).entries, groups[0].action;
      EntriesOf(groups[0], arch);
      GroupsAsComparisons(groups[1..], default, arch, acc, d);
      ThreadTagged(es, action, Comparisons(groups[1..], arch), default, acc, d);
      if EmptyGroup(groups[0]) {
        EmptyMergesToNothing(groups[0], arch);
        NoEntries(acc, d);
      } else if ThreadEntries(es, acc, d).Missed? {
        GroupsAsComparisons(groups[1..], default, arch, ThreadEntries(es, acc, d).acc, d);
      }
    }
  }

  lemma NoEntries(acc: uint32, d: SeccompData)
    ensures ThreadEntries([], acc, d) == Missed(acc)
  {}

  /** First match over the groups as written is first match over the merged comparisons. */
  lemma {:induction false} FirstMatchAsComparisons(groups: seq<SyscallGroup>, default: uint32, arch: ArchInfo, d: SeccompData)
    requires Evaluable(groups, arch)
    ensures AllUsable(Comparisons(groups, arch))
    ensures ReturnValue(FirstMatch(groups, default, arch, d)) == Compare(Comparisons(groups, arch), default, d.nr, d)
  {
    hide Evaluable, EvaluableGroup, MergeGroup, GroupMatches, ListMatches, Tagged, Distinct;
    if groups != [] {
      EvaluableTail(groups, arch);
      var es, action := MergeGroup(groups[0], arch).entries, groups[0].action;
      EntriesOf(groups[0], arch);
      EvaluableMerges(groups[0], arch);
      MergeKeepsMeaning(groups[0], arch, d.nr, d);
      FirstMatchAsComparisons(groups[1..], default, arch, d);
      CompareTagged(es, action, Comparisons(groups[1..], arch), default, d.nr, d);
    }
  }

  lemma EvaluableMerges(g: SyscallGroup, arch: ArchInfo)
    requires EvaluableGroup(g, arch)
    ensures MergeGroup(g, arch).problems == []
  {}

  // ---- the two verdicts ----

  /** No comparison but the last is a reached conditional entry for this number whose sets all fail. */
  predicate Undisturbed(cs: seq<Comparison>, nr: uint32, d: SeccompData)
    requires AllUsable(cs)
  {
    forall k :: 0 <= k < |cs| - 1 && Clobbers(cs[k].entry, nr, d) ==>
                  exists i :: 0 <= i < k && EntryMatches(cs[i].entry, nr, d)
  }

  lemma {:induction false} UndisturbedIsPlain(cs: seq<Comparison>, default: uint32, nr: uint32, d: SeccompData)
    requires AllUsable(cs) && Undisturbed(cs, nr, d)
    ensures Thread(cs, default, nr, d) == Compare(cs, default, nr, d)
  {
    hide SomeSetHolds;
    if cs != [] {
      var e, rest := cs[0].entry, cs[1..];
      if !EntryMatches(e, nr, d) {
        if Clobbers(e, nr, d) {
          assert rest == [];
        } else {
          forall k | 0 <= k < |rest| - 1 && Clobbers(rest[k].entry, nr, d)
            ensures exists i :: 0 <= i < k && EntryMatches(rest[i].entry, nr, d)
          {
            assert Clobbers(cs[k + 1].entry, nr, d);
            var i :| 0 <= i < k + 1 && EntryMatches(cs[i].entry, nr, d);
            assert EntryMatches(rest[i - 1].entry, nr, d);
          }
          UndisturbedIsPlain(rest, default, nr, d);
        }
      }
    }
  }

  /** Once a conditional entry has been reached and has failed, the remaining comparisons see the argument half it leaves. */
  lemma {:induction false} Clobbered(cs: seq<Comparison>, default: uint32, nr: uint32, d: SeccompData, k: nat)
    requires AllUsable(cs) && k < |cs| && Clobbers(cs[k].entry, nr, d)
    requires forall i :: 0 <= i < k ==> cs[i].entry.num != nr
    ensures var sets, rest := cs[k].entry.conditions, cs[k + 1..];
            && Thread(cs, default, nr, d) == Thread(rest, default, SetLeftover(sets[|sets| - 1], d), d)
            && Compare(cs, default, nr, d) == Compare(rest, default, nr, d)
  {
    hide SomeSetHolds;
    if k > 0 {
      assert cs[0].entry.num != nr;
      assert cs[1..][k - 1] == cs[k] && cs[1..][k..] == cs[k + 1..];
      Clobbered(cs[1..], default, nr, d, k - 1);
    }
  }

  /** The verdict a reader of the policy expects. */
  function PlainVerdict(groups: seq<SyscallGroup>, default: uint32, arch: ArchInfo, d: SeccompData): uint32 {
    if d.arch != arch.id then ReturnValue(default)
    else if arch.id == X86_64_ID && d.nr >= X32_SYSCALL_BIT then ACTION_ERRNO + ENOSYS
    else ReturnValue(FirstMatch(groups, default, arch, d))
  }

  /** The filter of a safe policy returns the plain first-match verdict on every record that leaves the number in the
      accumulator for as long as it is compared. */
  lemma FilterIsFirstMatch(groups: seq<SyscallGroup>, default: uint32, arch: ArchInfo, o: Order, acc: uint32, d: SeccompData)
    requires SafeGroups(groups, arch) && Fits(groups, arch)
    ensures AllUsable(Comparisons(groups, arch)) && Filter(groups, default, arch, o).Ok?
    ensures Undisturbed(Comparisons(groups, arch), d.nr, d) ==>
              Run(Filter(groups, default, arch, o).value, acc, EnvOf(d, o)) == Verdict(PlainVerdict(groups, default, arch, d))
  {
    hide SafeGroups, Evaluable, Run, EnvOf, Filter, Comparisons, Undisturbed, Thread, Compare, ThreadGroups, FirstMatch;
    SafeIsEvaluable(groups, arch);
    GroupsAsComparisons(groups, default, arch, d.nr, d);
    FirstMatchAsComparisons(groups, default, arch, d);
    CompilerCorrect(groups, default, arch, o, acc, d);
    if Undisturbed(Comparisons(groups, arch), d.nr, d) {
      UndisturbedIsPlain(Comparisons(groups, arch), default, d.nr, d);
    }
  }

  /** Every conditional comparison is the last one or comes behind a plain comparison with the same number. */
  predicate Orderly(cs: seq<Comparison>) {
    forall k :: 0 <= k < |cs| - 1 && cs[k].entry.conditions != [] ==> Covered(cs, k)
  }

  predicate Covered(cs: seq<Comparison>, k: nat)
    requires k < |cs|
  {
    exists i :: 0 <= i < k && cs[i].entry == Entry(cs[k].entry.num, [])
  }

  /** For a policy whose conditional comparisons are all covered or last, the filter is the plain first match on every record. */
  lemma OrderlyIsFirstMatch(groups: seq<SyscallGroup>, default: uint32, arch: ArchInfo, o: Order, acc: uint32, d: SeccompData)
    requires SafeGroups(groups, arch) && Fits(groups, arch) && Orderly(Comparisons(groups, arch))
    ensures Filter(groups, default, arch, o).Ok?
    ensures Run(Filter(groups, default, arch, o).value, acc, EnvOf(d, o)) == Verdict(PlainVerdict(groups, default, arch, d))
  {
    hide SafeGroups, Run, EnvOf, Filter, Comparisons, FirstMatch, SomeSetHolds, PlainVerdict, Fits;
    FilterIsFirstMatch(groups, default, arch, o, acc, d);
    var cs := Comparisons(groups, arch);
    forall k | 0 <= k < |cs| - 1 && Clobbers(cs[k].entry, d.nr, d)
      ensures exists i :: 0 <= i < k && EntryMatches(cs[i].entry, d.nr, d)
    {
      assert Covered(cs, k);
      var i :| 0 <= i < k && cs[i].entry == Entry(cs[k].entry.num, []);
      assert EntryMatches(cs[i].entry, d.nr, d);
    }
  }

  // ---- policies of names only ----

  predicate NamesOnly(groups: seq<SyscallGroup>, arch: ArchInfo) {
    forall k :: 0 <= k < |groups| ==> groups[k].withConditions == [] && MergeGroup(groups[k], arch).problems == []
  }

  lemma NamesOnlyEntries(g: SyscallGroup, arch: ArchInfo)
    requires g.withConditions == [] && MergeGroup(g, arch).problems == []
    ensures SafeGroup(g, arch)
    ensures forall k :: 0 <= k < |MergeGroup(g, arch).entries| ==> MergeGroup(g, arch).entries[k].conditions == []
    ensures |MergeGroup(g, arch).entries| == |g.names|
  {
    NamesForm(arch, g.names);
  }

  lemma {:induction false} NamesOnlyComparisons(groups: seq<SyscallGroup>, arch: ArchInfo)
    requires NamesOnly(groups, arch)
    ensures SafeGroups(groups, arch)
    ensures forall k :: 0 <= k < |Comparisons(groups, arch)| ==> Comparisons(groups, arch)[k].entry.conditions == []
  {
    hide SafeGroup, MergeGroup, Tagged;
    forall k | 0 <= k < |groups| ensures SafeGroup(groups[k], arch) {
      NamesOnlyEntries(groups[k], arch);
    }
    if groups != [] {
      NamesOnlyEntries(groups[0], arch);
      TaggedEntries(MergeGroup(groups[0], arch).entries, groups[0].action);
      NamesOnlyComparisons(groups[1..], arch);
    }
  }

  /** Policies of names only compile correctly with no further hypothesis, for any number of groups of any size. */
  lemma NamesOnlyCorrect(groups: seq<SyscallGroup>, default: uint32, arch: ArchInfo, o: Order, acc: uint32, d: SeccompData)
    requires NamesOnly(groups, arch) && Fits(groups, arch)
    ensures Filter(groups, default, arch, o).Ok?
    ensures Run(Filter(groups, default, arch, o).value, acc, EnvOf(d, o)) == Verdict(PlainVerdict(groups, default, arch, d))
  {
    hide SafeGroups, Run, EnvOf, Filter, Comparisons, NamesOnly, Fits;
    NamesOnlyComparisons(groups, arch);
    FilterIsFirstMatch(groups, default, arch, o, acc, d);
  }
}
