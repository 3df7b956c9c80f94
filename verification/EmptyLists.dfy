/** Lists of conditions that are empty: what the filter makes of them. The alternatives are tried in order and an empty one falls
    through: to the next alternative, to the next entry, or, behind the last entry of a group, into the group's action. */
module EmptyLists {
  import opened Words
  import opened Bpf
  import opened Labelled
  import opened Assembler
  import opened Insertion
  import opened Preservation
  import opened Policies
  import opened Merge
  import opened Codegen
  import opened CodegenMeaning
  import opened Compiler
  import opened Correctness
  import opened Acceptance
  import opened Nearby
  import opened PolicyLimit

  // ---- the evaluator ----

  datatype Tried = Hit | Failed(acc: uint32) | Through(acc: uint32)

  function TrySets(sets: seq<ConditionSet>, acc: uint32, d: SeccompData): Tried
    requires sets != [] && ValidSets(sets)
  {
    var s := sets[0];
    if s != [] && SetHolds(s, d) then Hit
    else
      var a := if s == [] then acc else SetLeftover(s, d);
      if |sets| > 1 then TrySets(sets[1..], a, d)
      else if s == [] then Through(a)
      else Failed(a)
  }

  function TryEntry(e: Entry, more: bool, acc: uint32, d: SeccompData): Threaded
    requires ValidSets(e.conditions)
  {
    if acc != e.num then Missed(acc)
    else if e.conditions == [] then Matched
    else
      match TrySets(e.conditions, acc, d)
      case Hit => Matched
      case Failed(a) => Missed(a)
      case Through(a) => if more then Missed(a) else Matched
  }

  function TryEntries(es: seq<Entry>, acc: uint32, d: SeccompData): Threaded
    requires ValidEntries(es)
  {
    if es == [] then Missed(acc)
    else
      match TryEntry(es[0], |es| > 1, acc, d)
      case Matched => Matched
      case Missed(a) => TryEntries(es[1..], a, d)
  }

  predicate Merging(groups: seq<SyscallGroup>, arch: ArchInfo) {
    forall k :: 0 <= k < |groups| ==> MergeGroup(groups[k], arch).problems == []
  }

  lemma MergedValid(g: SyscallGroup, arch: ArchInfo)
    requires MergeGroup(g, arch).problems == []
    ensures ValidEntries(MergeGroup(g, arch).entries)
  {
    hide MergeGroup, ListMatches, GroupMatches, Distinct;
    MergeKeepsMeaning(g, arch, 0, Record(0, 0, 0, [0, 0, 0, 0, 0, 0]));
  }

  function TryGroups(groups: seq<SyscallGroup>, default: uint32, arch: ArchInfo, acc: uint32, d: SeccompData): uint32
    requires Merging(groups, arch)
  {
    if groups == [] then ReturnValue(default)
    else
      MergedValid(groups[0], arch);
      assert forall k :: 0 <= k < |groups| - 1 ==> groups[1..][k] == groups[k + 1];
      if EmptyGroup(groups[0]) then TryGroups(groups[1..], default, arch, acc, d)
      else
        match TryEntries(MergeGroup(groups[0], arch).entries, acc, d)
        case Matched => ReturnValue(groups[0].action)
        case Missed(a) => TryGroups(groups[1..], default, arch, a, d)
  }

  // ---- with no list empty, it is the evaluator of the safe policies ----

  lemma {:induction false} TrySetsNonempty(sets: seq<ConditionSet>, acc: uint32, d: SeccompData)
    requires sets != [] && ValidSets(sets) && NonemptySets(sets)
    ensures TrySets(sets, acc, d)
            == if SomeSetHolds(sets, d) then Hit else Failed(SetLeftover(sets[|sets| - 1], d))
  {
    hide SetHolds, SomeSetHolds, SetLeftover;
    SomeSetStep(sets, d);
    if |sets| > 1 {
      TrySetsNonempty(sets[1..], SetLeftover(sets[0], d), d);
    } else {
      assert sets[1..] == [];
      NoSets(d);
    }
  }

  lemma {:induction false} TryIsThread(es: seq<Entry>, acc: uint32, d: SeccompData)
    requires ValidEntries(es) && NonemptyEntries(es)
    ensures TryEntries(es, acc, d) == ThreadEntries(es, acc, d)
  {
    hide TrySets, SomeSetHolds, SetLeftover;
    if es != [] {
      if es[0].conditions != [] {
        TrySetsNonempty(es[0].conditions, acc, d);
      }
      assert TryEntry(es[0], |es| > 1, acc, d) == ThreadEntry(es[0], acc, d);
      if ThreadEntry(es[0], acc, d).Missed? {
        TryIsThread(es[1..], ThreadEntry(es[0], acc, d).acc, d);
      }
    }
  }

  lemma {:induction false} TryGroupsIsThread(groups: seq<SyscallGroup>, default: uint32, arch: ArchInfo, acc: uint32,
                                             d: SeccompData)
    requires Merging(groups, arch) && Evaluable(groups, arch)
    ensures TryGroups(groups, default, arch, acc, d) == ThreadGroups(groups, default, arch, acc, d)
  {
    hide MergeGroup, TryEntries, ThreadEntries;
    if groups != [] {
      EvaluableTail(groups, arch);
      assert forall k :: 0 <= k < |groups| - 1 ==> groups[1..][k] == groups[k + 1];
      EntriesOf(groups[0], arch);
      var es := MergeGroup(groups[0], arch).entries;
      TryIsThread(es, acc, d);
      TryGroupsIsThread(groups[1..], default, arch, acc, d);
      if TryEntries(es, acc, d).Missed? {
        TryGroupsIsThread(groups[1..], default, arch, TryEntries(es, acc, d).acc, d);
      }
    }
  }

  // ---- the builder calls do what it says ----

  lemma FirstSet(sets: seq<ConditionSet>, action: Label, next: Label, last: Label, o: Order, k: seq<Item>)
    requires sets != []
    ensures var more := |sets| > 1;
            var nc := if more then last + 1 else next;
            var head := SetItems(sets[0], action, nc, if more then last + 1 else last, o);
            var rest := SetsItems(sets[1..], action, next, head.last, o).items;
            SetsItems(sets, action, next, last, o).items + k == head.items + if more then [Mark(nc)] + (rest + k) else k
  {
    hide SetItems;
  }

  lemma {:induction false} SetsTry(sets: seq<ConditionSet>, action: Label, next: Label, last: Label, d: SeccompData, o: Order,
                                   k: seq<Item>, acc: uint32) returns (left: uint32)
    requires sets != [] && ValidSets(sets) && action <= last && next <= last
    ensures Exec(SetsItems(sets, action, next, last, o).items + k, acc, EnvOf(d, o))
            == match TrySets(sets, acc, d)
               case Hit => Exec(Goto(k, action), left, EnvOf(d, o))
               case Failed(a) => Exec(Goto(k, next), a, EnvOf(d, o))
               case Through(a) => Exec(k, a, EnvOf(d, o))
  {
    hide SetItems, EnvOf, Exec, Goto, SetHolds, SetLeftover, Within;
    var more, s := |sets| > 1, sets[0];
    var last' := if more then last + 1 else last;
    var nc := if more then last + 1 else next;
    var head := SetItems(s, action, nc, last', o);
    var rest := SetsItems(sets[1..], action, next, head.last, o);
    SetWithin(s, action, nc, last', o);
    WithinGrows(head.items, last', head.last);
    left := if s == [] then acc else SetLeftover(s, d);
    var k' := if more then [Mark(nc)] + (rest.items + k) else k;
    FirstSet(sets, action, next, last, o, k);
    if s == [] {
      NoSetItems(action, nc, last', o);
      assert head.items + k' == k';
    } else {
      SetExec(s, action, nc, last', d, o, k', acc);
    }
    if more {
      ExecMark(nc, rest.items + k, left, EnvOf(d, o));
      if s != [] && SetHolds(s, d) {
        SetsWithin(sets[1..], action, next, head.last, o);
        GotoPast(rest.items, k, action, head.last, rest.last);
      } else {
        left := SetsTry(sets[1..], action, next, head.last, d, o, k, left);
      }
    }
  }

  /** Behind the last entry of a group stands its action. */
  predicate Acts(k: seq<Item>, action: Label) { k != [] && k[0] == Mark(action) }

  lemma ActsExec(k: seq<Item>, action: Label, acc: uint32, env: Env)
    requires Acts(k, action)
    ensures Exec(k, acc, env) == Exec(Goto(k, action), acc, env)
  {}

  lemma EntryTry(e: Entry, more: bool, action: Label, end: Label, last: Label, d: SeccompData, o: Order, k: seq<Item>,
                 acc: uint32) returns (left: uint32)
    requires ValidSets(e.conditions) && action <= last && end <= last && (!more ==> Acts(k, action))
    ensures Exec(EntryItems(e, more, action, end, last, o).items + k, acc, EnvOf(d, o))
            == match TryEntry(e, more, acc, d)
               case Matched => Exec(Goto(k, action), left, EnvOf(d, o))
               case Missed(a) => Exec(if more then k else Goto(k, end), a, EnvOf(d, o))
  {
    hide SetsItems, EnvOf, Exec, Goto, TrySets, Within, CheckTrue, Acts;
    var env := EnvOf(d, o);
    left := acc;
    if e.conditions == [] {
      if more {
        ExecCheck(Test.Equal, e.num, action, last + 1, k, acc, env);
      } else {
        ExecBranch(Test.Equal, e.num, action, end, k, acc, env);
      }
    } else {
      var next := if more then last + 1 else end;
      var first := (if more then last + 1 else last) + 1;
      var check := CheckTrue(Test.NotEqual, e.num, next, first);
      var sets := SetsItems(e.conditions, action, next, first, o);
      var k' := MarkIf(more, next) + k;
      assert check + sets.items + MarkIf(more, next) + k == check + (sets.items + k');
      ExecCheck(Test.NotEqual, e.num, next, first, sets.items + k', acc, env);
      left := SetsTry(e.conditions, action, next, first, d, o, k', acc);
      SetsWithin(e.conditions, action, next, first, o);
      GotoPast(sets.items, k', next, first, sets.last);
      match TrySets(e.conditions, acc, d)
      case Through(a) =>
        if more {
          ExecMark(next, k, a, env);
          ExecMark(next, k, acc, env);
        } else {
          assert k' == k;
          left := if acc == e.num then a else left;
          ActsExec(k, action, a, env);
        }
      case _ =>
        if more {
          ExecMark(next, k, acc, env);
        } else {
          assert k' == k;
        }
    }
  }

  lemma {:induction false} EntriesTry(es: seq<Entry>, action: Label, end: Label, last: Label, d: SeccompData, o: Order,
                                      k: seq<Item>, acc: uint32) returns (left: uint32)
    requires es != [] && ValidEntries(es) && action <= last && end <= last && Acts(k, action)
    ensures Exec(EntriesItems(es, action, end, last, o).items + k, acc, EnvOf(d, o))
            == match TryEntries(es, acc, d)
               case Matched => Exec(Goto(k, action), left, EnvOf(d, o))
               case Missed(a) => Exec(Goto(k, end), a, EnvOf(d, o))
  {
    hide EntryItems, EnvOf, Exec, Goto, TryEntry, Within, Acts;
    var more := |es| > 1;
    var head := EntryItems(es[0], more, action, end, last, o);
    var rest := EntriesItems(es[1..], action, end, head.last, o);
    assert EntriesItems(es, action, end, last, o).items + k == head.items + (rest.items + k);
    EntryWithin(es[0], more, action, end, last, o);
    WithinGrows(head.items, last, head.last);
    EntriesWithin(es[1..], action, end, head.last, o);
    if !more {
      assert es[1..] == [] && rest.items + k == k;
    }
    left := EntryTry(es[0], more, action, end, last, d, o, rest.items + k, acc);
    GotoPast(rest.items, k, action, head.last, rest.last);
    GotoPast(rest.items, k, end, head.last, rest.last);
    if more && TryEntry(es[0], more, acc, d).Missed? {
      left := EntriesTry(es[1..], action, end, head.last, d, o, k, TryEntry(es[0], more, acc, d).acc);
    }
  }

  lemma GroupTry(es: seq<Entry>, action: uint32, last: Label, d: SeccompData, o: Order, k: seq<Item>, acc: uint32)
    requires es != [] && ValidEntries(es)
    ensures Exec(GroupItems(es, action, last, o).items + k, acc, EnvOf(d, o))
            == match TryEntries(es, acc, d)
               case Matched => Verdict(ReturnValue(action))
               case Missed(a) => Exec(k, a, EnvOf(d, o))
  {
    hide EntriesItems, EnvOf, TryEntries;
    var body := EntriesItems(es, last + 1, last + 2, last + 2, o);
    var ret := [Return(ReturnValue(action))] + ([Mark(last + 2)] + k);
    var tail := [Mark(last + 1)] + ret;
    assert GroupItems(es, action, last, o).items + k == body.items + tail;
    var left := EntriesTry(es, last + 1, last + 2, last + 2, d, o, tail, acc);
    ExecMark(last + 1, ret, acc, EnvOf(d, o));
    assert ret[1..] == [Mark(last + 2)] + k;
    ExecMark(last + 2, k, acc, EnvOf(d, o));
  }

  lemma {:induction false} GroupsTry(groups: seq<SyscallGroup>, default: uint32, arch: ArchInfo, last: Label, o: Order,
                                     acc: uint32, d: SeccompData)
    requires Merging(groups, arch)
    ensures GroupsItems(groups, arch, last, o).Ok?
    ensures Exec(GroupsItems(groups, arch, last, o).value.items + [Return(ReturnValue(default))], acc, EnvOf(d, o))
            == Verdict(TryGroups(groups, default, arch, acc, d))
  {
    hide GroupItems, MergeGroup, EnvOf, TryEntries;
    GroupsMergeIff(groups, arch, last, o);
    var ret := [Return(ReturnValue(default))];
    if groups == [] {
      assert [] + ret == ret;
    } else {
      assert forall k :: 0 <= k < |groups| - 1 ==> groups[1..][k] == groups[k + 1];
      MergedValid(groups[0], arch);
      if EmptyGroup(groups[0]) {
        GroupsTry(groups[1..], default, arch, last, o, acc, d);
      } else {
        MergedNonempty(groups[0], arch);
        var es := MergeGroup(groups[0], arch).entries;
        var head := GroupItems(es, groups[0].action, last, o);
        GroupsMergeIff(groups[1..], arch, head.last, o);
        var rest := GroupsItems(groups[1..], arch, head.last, o).value.items;
        Regroup(head.items, rest, ret);
        GroupTry(es, groups[0].action, last, d, o, rest + ret, acc);
        match TryEntries(es, acc, d)
        case Matched =>
        case Missed(a) => GroupsTry(groups[1..], default, arch, head.last, o, a, d);
      }
    }
  }

  // ---- small policies ----

  lemma SmallTables(groups: seq<SyscallGroup>, default: uint32, arch: ArchInfo, o: Order)
    requires Merging(groups, arch) && Useful(groups, arch) && PolicySize(groups, arch) <= 257
    ensures GroupsItems(groups, arch, 1, o).Ok? && Ready(Whole(PolicyItems(groups, default, arch, o)))
    ensures var c := Whole(PolicyItems(groups, default, arch, o)); AllWithin(c, 0, |c.jumps|, 255)
  {
    hide GroupsItems, MergeGroup, Useful, PolicySize, Whole, Ready, Open, Near;
    GroupsMergeIff(groups, arch, 1, o);
    PolicyOpen(groups, default, arch, o);
    PolicyLength(groups, default, arch, o);
    var c := Whole(PolicyItems(groups, default, arch, o));
    forall q | 0 <= q < |c.jumps| ensures Near(c, q, 255) {
      LaterIsNear(c, q, 255);
    }
  }

  /** A policy of at most 257 instructions without useless entries, whatever the lengths of its lists, returns on every record
      what the evaluator says. */
  lemma SmallPolicyReturns(groups: seq<SyscallGroup>, default: uint32, arch: ArchInfo, o: Order, acc: uint32, d: SeccompData)
    requires Merging(groups, arch) && Useful(groups, arch) && PolicySize(groups, arch) <= 257
    ensures Filter(groups, default, arch, o).Ok?
    ensures Run(Filter(groups, default, arch, o).value, acc, EnvOf(d, o))
            == Verdict(if d.arch != arch.id then ReturnValue(default)
                       else if arch.id == X86_64_ID && d.nr >= X32_SYSCALL_BIT then ACTION_ERRNO + ENOSYS
                       else TryGroups(groups, default, arch, d.nr, d))
  {
    hide GroupsItems, MergeGroup, Useful, PolicySize, Whole, Ready, AssembleFrom, Run, RunLabelled, Exec, EnvOf, Prologue, Sound,
      AllWithin, NoLongJump, TryGroups, Filter;
    SmallTables(groups, default, arch, o);
    FilterAccepts(groups, default, arch, o);
    var items, env := PolicyItems(groups, default, arch, o), EnvOf(d, o);
    var body := FilterBody(groups, default, arch, o);
    PolicySound(groups, default, arch, o);
    NoJumpsBuilt(items);
    WholeTables(items, 0);
    NearKeepsMeaning(Whole(items), d.nr, env);
    TablesMeanItems([], items, d.nr, env);
    assert [] + items == items;
    GroupsTry(groups, default, arch, 1, o, d.nr, d);
    PrologueRuns(arch, body, d, o, acc);
  }

  // ---- an empty list does not match by itself ----

  /** A list without conditions holds of every call, but the alternatives behind it are tried all the same. */
  lemma EmptyDoesNotMatch(num: uint32, s: ConditionSet, d: SeccompData)
    requires s != [] && ValidSet(s) && !SetHolds(s, d)
    ensures var e := Entry(num, [[], s]);
            ValidSets(e.conditions) && EntryMatches(e, num, d) && forall more :: TryEntry(e, more, num, d).Missed?
  {
    hide SetLeftover;
    var sets: seq<ConditionSet> := [[], s];
    assert sets[0] == [] && sets[1] == s && sets[1..] == [s];
    assert SetHolds(sets[0], d);
    assert TrySets([s], num, d) == Failed(SetLeftover(s, d));
    assert TrySets(sets, num, d) == TrySets([s], num, d);
  }
}
