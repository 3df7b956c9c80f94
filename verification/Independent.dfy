/** When the filter is the plain first match on every record, for policies with any number of conditional comparisons that test
    different arguments: what one leaves in the accumulator and what the others make of it are then decided independently. */
module Independent {
  import opened Words
  import opened Bpf
  import opened Policies
  import opened Compiler
  import opened Correctness
  import opened Plain
  import opened Leftovers

  // ---- the arguments an entry tests ----

  predicate Tests(e: Entry, a: uint32) {
    exists k, i :: 0 <= k < |e.conditions| && 0 <= i < |e.conditions[k]| && e.conditions[k][i].arg == a
  }

  /** The two records agree on all arguments the entry tests. */
  predicate Agree(e: Entry, d: SeccompData, x: SeccompData) {
    forall a: uint32 :: a <= 5 && Tests(e, a) ==> d.args[a] == x.args[a]
  }

  lemma {:induction false} SetAgrees(cs: ConditionSet, d: SeccompData, x: SeccompData)
    requires cs != [] && ValidSet(cs) && forall i :: 0 <= i < |cs| ==> d.args[cs[i].arg] == x.args[cs[i].arg]
    ensures SetHolds(cs, d) <==> SetHolds(cs, x)
    ensures SetLeftover(cs, d) == SetLeftover(cs, x)
  {
    assert forall k :: 0 <= k < |cs| ==> Holds(cs[k], d) == Holds(cs[k], x);
    if |cs| > 1 {
      SetAgrees(cs[1..], d, x);
    }
  }

  lemma EntryAgrees(e: Entry, d: SeccompData, x: SeccompData)
    requires Usable(e) && e.conditions != [] && Agree(e, d, x)
    ensures SomeSetHolds(e.conditions, d) <==> SomeSetHolds(e.conditions, x)
    ensures SetLeftover(e.conditions[|e.conditions| - 1], d) == SetLeftover(e.conditions[|e.conditions| - 1], x)
  {
    hide SetHolds, SetLeftover;
    forall k | 0 <= k < |e.conditions|
      ensures SetHolds(e.conditions[k], d) <==> SetHolds(e.conditions[k], x)
      ensures SetLeftover(e.conditions[k], d) == SetLeftover(e.conditions[k], x)
    {
      var cs := e.conditions[k];
      forall i | 0 <= i < |cs| ensures d.args[cs[i].arg] == x.args[cs[i].arg] {
        assert Tests(e, cs[i].arg);
      }
      SetAgrees(cs, d, x);
    }
  }

  predicate AgreeOnAll(cs: seq<Comparison>, d: SeccompData, x: SeccompData) {
    forall k :: 0 <= k < |cs| ==> Agree(cs[k].entry, d, x)
  }

  /** Arguments that no comparison tests do not matter. */
  lemma {:induction false} ThreadAgrees(cs: seq<Comparison>, default: uint32, acc: uint32, d: SeccompData, x: SeccompData)
    requires AllUsable(cs) && AgreeOnAll(cs, d, x)
    ensures Thread(cs, default, acc, d) == Thread(cs, default, acc, x)
  {
    hide SomeSetHolds, SetLeftover, Agree;
    if cs != [] {
      var e, rest := cs[0].entry, cs[1..];
      assert Agree(e, d, x);
      if e.conditions != [] {
        EntryAgrees(e, d, x);
      }
      match ThreadEntry(e, acc, d)
      case Matched =>
      case Missed(a) => ThreadAgrees(rest, default, a, d, x);
    }
  }

  /** The record with the arguments of `x` where the entry tests them, and those of `d` elsewhere. */
  function Mixed(e: Entry, x: SeccompData, d: SeccompData): (r: SeccompData)
    ensures Agree(e, r, x)
    ensures forall a: uint32 :: a <= 5 && !Tests(e, a) ==> r.args[a] == d.args[a]
  {
    Record(d.nr, d.arch, d.ip, seq(6, a requires 0 <= a < 6 => if Tests(e, a) then x.args[a] else d.args[a]))
  }

  // ---- independent comparisons ----

  /** No argument is tested by two comparisons. */
  predicate Disjoint(cs: seq<Comparison>) {
    forall i, j, a: uint32 :: 0 <= i < j < |cs| && Tests(cs[i].entry, a) ==> !Tests(cs[j].entry, a)
  }

  /** Besides, no two conditional comparisons have the same number. */
  predicate Independent(cs: seq<Comparison>) {
    && Disjoint(cs)
    && (forall i, j :: 0 <= i < j < |cs| && cs[i].entry.conditions != [] && cs[j].entry.conditions != [] ==>
          cs[i].entry.num != cs[j].entry.num)
  }

  ghost predicate CanMatch(e: Entry)
    requires Usable(e)
  {
    exists d: SeccompData :: SomeSetHolds(e.conditions, d)
  }

  /** On every record the comparisons return `v` when the accumulator starts as `m`. */
  ghost predicate OnAll(cs: seq<Comparison>, default: uint32, m: uint32, v: uint32)
    requires AllUsable(cs)
  {
    forall d: SeccompData :: Thread(cs, default, m, d) == v
  }

  /** The same, read off the comparisons one by one. */
  ghost predicate AlwaysReturn(cs: seq<Comparison>, default: uint32, m: uint32, v: uint32)
    requires AllUsable(cs)
  {
    if cs == [] then v == ReturnValue(default)
    else
      var e, rest := cs[0].entry, cs[1..];
      if e.num != m then AlwaysReturn(rest, default, m, v)
      else if e.conditions == [] then v == ReturnValue(cs[0].action)
      else
        && (CanMatch(e) ==> v == ReturnValue(cs[0].action))
        && (forall n: uint32 :: Leaves(e, n) ==> AlwaysReturn(rest, default, n, v))
  }

  lemma DisjointMixed(cs: seq<Comparison>, x: SeccompData, d: SeccompData)
    requires cs != [] && Disjoint(cs)
    ensures AgreeOnAll(cs[1..], Mixed(cs[0].entry, x, d), d)
  {
    forall k, a: uint32 | 0 <= k < |cs[1..]| && a <= 5 && Tests(cs[1..][k].entry, a)
      ensures Mixed(cs[0].entry, x, d).args[a] == d.args[a]
    {
      assert cs[1..][k] == cs[k + 1];
    }
  }

  lemma DisjointTail(cs: seq<Comparison>)
    requires cs != [] && Disjoint(cs)
    ensures Disjoint(cs[1..])
  {
    forall i, j, a: uint32 | 0 <= i < j < |cs[1..]| && Tests(cs[1..][i].entry, a) ensures !Tests(cs[1..][j].entry, a) {
      assert cs[1..][i] == cs[i + 1] && cs[1..][j] == cs[j + 1];
    }
  }

  lemma ThreadHere(cs: seq<Comparison>, default: uint32, d: SeccompData)
    requires cs != [] && AllUsable(cs) && cs[0].entry.conditions != []
    ensures var e := cs[0].entry;
            Thread(cs, default, e.num, d)
            == if SomeSetHolds(e.conditions, d) then ReturnValue(cs[0].action)
               else Thread(cs[1..], default, SetLeftover(e.conditions[|e.conditions| - 1], d), d)
  {
    hide SomeSetHolds, SetLeftover;
  }

  lemma ThreadPast(cs: seq<Comparison>, default: uint32, m: uint32, d: SeccompData)
    requires cs != [] && AllUsable(cs) && cs[0].entry.num != m
    ensures Thread(cs, default, m, d) == Thread(cs[1..], default, m, d)
  {
    hide SomeSetHolds, SetLeftover;
  }

  lemma OnAllPast(cs: seq<Comparison>, default: uint32, m: uint32, v: uint32)
    requires cs != [] && AllUsable(cs) && cs[0].entry.num != m
    ensures OnAll(cs, default, m, v) <==> OnAll(cs[1..], default, m, v)
  {
    hide Thread;
    if OnAll(cs, default, m, v) {
      forall d: SeccompData ensures Thread(cs[1..], default, m, d) == v {
        ThreadPast(cs, default, m, d);
      }
    }
    if OnAll(cs[1..], default, m, v) {
      forall d: SeccompData ensures Thread(cs, default, m, d) == v {
        ThreadPast(cs, default, m, d);
      }
    }
  }

  lemma MatchesHere(e: Entry, d: SeccompData)
    requires Usable(e) && SomeSetHolds(e.conditions, d)
    ensures CanMatch(e)
  {}

  lemma Matching(e: Entry) returns (d: SeccompData)
    requires Usable(e) && CanMatch(e)
    ensures SomeSetHolds(e.conditions, d)
  {
    d :| SomeSetHolds(e.conditions, d);
  }

  lemma LeavesHere(e: Entry, d: SeccompData)
    requires Usable(e) && e.conditions != [] && !SomeSetHolds(e.conditions, d)
    ensures Leaves(e, SetLeftover(e.conditions[|e.conditions| - 1], d))
  {
    hide SomeSetHolds, SetLeftover;
    assert LeavesOn(e, d, SetLeftover(e.conditions[|e.conditions| - 1], d));
  }

  /** What the first comparison leaves and what the others make of it do not depend on the same arguments. */
  lemma AlwaysAfter(cs: seq<Comparison>, default: uint32, v: uint32, n: uint32)
    requires cs != [] && AllUsable(cs) && Disjoint(cs) && cs[0].entry.conditions != [] && Leaves(cs[0].entry, n)
    requires OnAll(cs, default, cs[0].entry.num, v)
    ensures OnAll(cs[1..], default, n, v)
  {
    hide SomeSetHolds, SetLeftover, Disjoint, Tests, Thread, Agree, Mixed;
    var e, rest := cs[0].entry, cs[1..];
    var x: SeccompData :| LeavesOn(e, x, n);
    forall d: SeccompData ensures Thread(rest, default, n, d) == v {
      var y := Mixed(e, x, d);
      EntryAgrees(e, y, x);
      ThreadHere(cs, default, y);
      DisjointMixed(cs, x, d);
      ThreadAgrees(rest, default, n, y, d);
    }
  }

  /** For disjoint comparisons that is exact. */
  lemma {:induction false} AlwaysReturnIff(cs: seq<Comparison>, default: uint32, m: uint32, v: uint32)
    requires AllUsable(cs) && Disjoint(cs)
    ensures AlwaysReturn(cs, default, m, v) <==> OnAll(cs, default, m, v)
  {
    hide SomeSetHolds, SetLeftover, Disjoint, Tests, Leaves, LeavesOn, CanMatch;
    if cs == [] {
      var d: SeccompData := Record(0, 0, 0, [0, 0, 0, 0, 0, 0]);
      assert Thread(cs, default, m, d) == ReturnValue(default);
    } else {
      DisjointTail(cs);
      var e, rest := cs[0].entry, cs[1..];
      if e.num != m {
        assert AlwaysReturn(cs, default, m, v) <==> AlwaysReturn(rest, default, m, v);
        OnAllPast(cs, default, m, v);
        AlwaysReturnIff(rest, default, m, v);
      } else if e.conditions == [] {
        var d: SeccompData := Record(0, 0, 0, [0, 0, 0, 0, 0, 0]);
        assert Thread(cs, default, m, d) == ReturnValue(cs[0].action);
      } else {
        if AlwaysReturn(cs, default, m, v) {
          forall d: SeccompData ensures Thread(cs, default, m, d) == v {
            ThreadHere(cs, default, d);
            if SomeSetHolds(e.conditions, d) {
              assert CanMatch(e) by { MatchesHere(e, d); }
            } else {
              var n := SetLeftover(e.conditions[|e.conditions| - 1], d);
              assert Leaves(e, n) by { LeavesHere(e, d); }
              AlwaysReturnIff(rest, default, n, v);
            }
          }
        }
        if OnAll(cs, default, m, v) {
          if CanMatch(e) {
            var d := Matching(e);
            ThreadHere(cs, default, d);
          }
          forall n: uint32 | Leaves(e, n) ensures AlwaysReturn(rest, default, n, v) {
            AlwaysAfter(cs, default, v, n);
            AlwaysReturnIff(rest, default, n, v);
          }
        }
      }
    }
  }

  // ---- the filter on all records ----

  /** Whatever a reached conditional comparison can leave, those behind it return what they return for its own number. */
  ghost predicate HarmlessAt(cs: seq<Comparison>, default: uint32, k: nat)
    requires AllUsable(cs) && k < |cs| && cs[k].entry.conditions != []
  {
    var e, rest := cs[k].entry, cs[k + 1..];
    forall m: uint32 :: Leaves(e, m) ==> AlwaysReturn(rest, default, m, FirstReturn(rest, default, e.num))
  }

  ghost predicate Harmless(cs: seq<Comparison>, default: uint32, arch: ArchInfo)
    requires AllUsable(cs)
  {
    forall k :: 0 <= k < |cs| && Reached(cs, k) && Admitted(arch, cs[k].entry.num) ==> HarmlessAt(cs, default, k)
  }

  /** A number that no conditional comparison has. */
  lemma {:induction false} CompareNumber(cs: seq<Comparison>, default: uint32, nr: uint32, d: SeccompData)
    requires AllUsable(cs) && forall i :: 0 <= i < |cs| && cs[i].entry.conditions != [] ==> cs[i].entry.num != nr
    ensures Compare(cs, default, nr, d) == FirstReturn(cs, default, nr)
  {
    if cs != [] {
      CompareNumber(cs[1..], default, nr, d);
    }
  }

  lemma DisjointFrom(cs: seq<Comparison>, k: nat)
    requires k <= |cs| && Disjoint(cs)
    ensures Disjoint(cs[k..])
  {
    forall i, j, a: uint32 | 0 <= i < j < |cs[k..]| && Tests(cs[k..][i].entry, a) ensures !Tests(cs[k..][j].entry, a) {
      assert cs[k..][i] == cs[k + i] && cs[k..][j] == cs[k + j];
    }
  }

  /** What a reached comparison of independent ones leads to when it fails. */
  lemma FailedAt(cs: seq<Comparison>, default: uint32, k: nat, d: SeccompData)
    requires AllUsable(cs) && Independent(cs) && Reached(cs, k) && Clobbers(cs[k].entry, d.nr, d)
    ensures var e, rest := cs[k].entry, cs[k + 1..];
            && Thread(cs, default, d.nr, d) == Thread(rest, default, SetLeftover(e.conditions[|e.conditions| - 1], d), d)
            && Compare(cs, default, d.nr, d) == FirstReturn(rest, default, e.num)
  {
    hide Thread, Compare, FirstReturn, SomeSetHolds, SetLeftover, Disjoint;
    Clobbered(cs, default, d.nr, d, k);
    var rest := cs[k + 1..];
    forall i | 0 <= i < |rest| && rest[i].entry.conditions != [] ensures rest[i].entry.num != d.nr {
      assert rest[i] == cs[k + 1 + i];
    }
    CompareNumber(rest, default, d.nr, d);
  }

  /** Either nothing disturbs the number, or a reached comparison has failed. */
  lemma FailedOrPlain(cs: seq<Comparison>, default: uint32, d: SeccompData) returns (k: nat)
    requires AllUsable(cs) && Independent(cs)
    ensures || (Reached(cs, k) && Clobbers(cs[k].entry, d.nr, d))
            || Thread(cs, default, d.nr, d) == Compare(cs, default, d.nr, d)
  {
    hide Thread, Compare, SomeSetHolds, Disjoint;
    k := 0;
    if Undisturbed(cs, d.nr, d) {
      UndisturbedIsPlain(cs, default, d.nr, d);
    } else {
      k :| 0 <= k < |cs| - 1 && Clobbers(cs[k].entry, d.nr, d)
           && forall i :: 0 <= i < k ==> !EntryMatches(cs[i].entry, d.nr, d);
      forall i | 0 <= i < k ensures cs[i].entry.num != cs[k].entry.num {
        assert !EntryMatches(cs[i].entry, d.nr, d);
      }
    }
  }

  lemma HarmlessAgrees(cs: seq<Comparison>, default: uint32, arch: ArchInfo, d: SeccompData)
    requires AllUsable(cs) && Independent(cs) && Harmless(cs, default, arch) && Admitted(arch, d.nr)
    ensures Thread(cs, default, d.nr, d) == Compare(cs, default, d.nr, d)
  {
    hide Thread, Compare, FirstReturn, SomeSetHolds, SetLeftover, Disjoint, AlwaysReturn, Leaves;
    var k := FailedOrPlain(cs, default, d);
    if Reached(cs, k) && Clobbers(cs[k].entry, d.nr, d) {
      var e, rest := cs[k].entry, cs[k + 1..];
      FailedAt(cs, default, k, d);
      assert HarmlessAt(cs, default, k);
      LeavesHere(e, d);
      DisjointFrom(cs, k + 1);
      AlwaysReturnIff(rest, default, SetLeftover(e.conditions[|e.conditions| - 1], d), FirstReturn(rest, default, e.num));
    }
  }

  /** If the verdicts agree on all records of a number, its conditional comparison is harmless. */
  lemma AgreesHarmless(cs: seq<Comparison>, default: uint32, k: nat, id: uint32)
    requires AllUsable(cs) && Independent(cs) && Reached(cs, k)
    requires forall d: SeccompData :: d.arch == id && d.nr == cs[k].entry.num ==>
               Thread(cs, default, d.nr, d) == Compare(cs, default, d.nr, d)
    ensures HarmlessAt(cs, default, k)
  {
    hide Thread, Compare, FirstReturn, SomeSetHolds, SetLeftover, Disjoint, AlwaysReturn, Leaves, Tests, Agree, Mixed;
    var e, rest := cs[k].entry, cs[k + 1..];
    DisjointFrom(cs, k + 1);
    forall m: uint32 | Leaves(e, m) ensures AlwaysReturn(rest, default, m, FirstReturn(rest, default, e.num)) {
      var x := Leaving(e, m);
      forall d: SeccompData ensures Thread(rest, default, m, d) == FirstReturn(rest, default, e.num) {
        var y := Mixed(e, x, d);
        var z: SeccompData := Record(e.num, id, 0, y.args);
        MixedFrom(cs, k, x, d, z);
        EntryAgrees(e, z, x);
        FailedAt(cs, default, k, z);
        ThreadAgrees(rest, default, m, z, d);
      }
      AlwaysReturnIff(rest, default, m, FirstReturn(rest, default, e.num));
    }
  }

  lemma Leaving(e: Entry, m: uint32) returns (x: SeccompData)
    requires Usable(e) && e.conditions != [] && Leaves(e, m)
    ensures LeavesOn(e, x, m)
  {
    hide LeavesOn;
    x :| LeavesOn(e, x, m);
  }

  lemma MixedFrom(cs: seq<Comparison>, k: nat, x: SeccompData, d: SeccompData, z: SeccompData)
    requires k < |cs| && Disjoint(cs) && z.args == Mixed(cs[k].entry, x, d).args
    ensures Agree(cs[k].entry, z, x) && AgreeOnAll(cs[k + 1..], z, d)
  {
    hide Tests;
    var rest := cs[k + 1..];
    forall i, a: uint32 | 0 <= i < |rest| && a <= 5 && Tests(rest[i].entry, a) ensures z.args[a] == d.args[a] {
      assert rest[i] == cs[k + 1 + i];
    }
  }

  /** For a policy whose conditional comparisons have different numbers and test different arguments, the filter is the plain
      first match on every record if and only if every one of them that can be reached is harmless. */
  lemma IndependentPlainIff(groups: seq<SyscallGroup>, default: uint32, arch: ArchInfo, o: Order)
    requires SafeGroups(groups, arch) && Fits(groups, arch) && AllUsable(Comparisons(groups, arch))
    requires Independent(Comparisons(groups, arch))
    ensures PlainOnAll(groups, default, arch, o) <==> Harmless(Comparisons(groups, arch), default, arch)
  {
    hide SafeGroups, Fits, Run, EnvOf, Filter, Comparisons, Thread, Compare, PlainVerdict, Independent, HarmlessAt;
    var cs := Comparisons(groups, arch);
    if PlainOnAll(groups, default, arch, o) {
      forall k | 0 <= k < |cs| && Reached(cs, k) && Admitted(arch, cs[k].entry.num) ensures HarmlessAt(cs, default, k) {
        forall d: SeccompData | d.arch == arch.id && d.nr == cs[k].entry.num
          ensures Thread(cs, default, d.nr, d) == Compare(cs, default, d.nr, d)
        {
          VerdictsOf(groups, default, arch, o, 0, d);
        }
        AgreesHarmless(cs, default, k, arch.id);
      }
    }
    if Harmless(cs, default, arch) {
      VerdictsOf(groups, default, arch, o, 0, Record(0, 0, 0, [0, 0, 0, 0, 0, 0]));
      forall acc: uint32, d: SeccompData
        ensures Run(Filter(groups, default, arch, o).value, acc, EnvOf(d, o)) == Verdict(PlainVerdict(groups, default, arch, d))
      {
        VerdictsOf(groups, default, arch, o, acc, d);
        if Admitted(arch, d.nr) {
          HarmlessAgrees(cs, default, arch, d);
        }
      }
    }
  }

  // ---- entries with one set of conditions on different arguments ----

  lemma {:induction false} SetMatching(cs: ConditionSet) returns (d: SeccompData)
    requires ValidSet(cs) && DifferentArguments(cs) && forall i :: 0 <= i < |cs| ==> CanHold(cs[i])
    ensures SetHolds(cs, d)
  {
    hide CanHold, Holding;
    if cs == [] {
      d := Record(0, 0, 0, [0, 0, 0, 0, 0, 0]);
    } else {
      var c := cs[0];
      var x := SetMatching(cs[1..]);
      d := Record(0, 0, 0, x.args[c.arg := Holding(c)]);
      CanHoldIff(c, d);
      forall k | 0 < k < |cs| ensures Holds(cs[k], d) {
        assert cs[1..][k - 1] == cs[k] && Holds(cs[1..][k - 1], x);
      }
    }
  }

  /** Such an entry can match if and only if each of its conditions can hold; `OneSetLeaves` tells what it can leave. */
  lemma OneSetMatches(num: uint32, cs: ConditionSet)
    requires cs != [] && ValidSet(cs) && DifferentArguments(cs)
    ensures Usable(Entry(num, [cs])) && (CanMatch(Entry(num, [cs])) <==> forall i :: 0 <= i < |cs| ==> CanHold(cs[i]))
  {
    hide CanHold, Holding, DifferentArguments;
    var e := Entry(num, [cs]);
    assert e.conditions[0] == cs;
    assert Usable(e);
    if forall i :: 0 <= i < |cs| ==> CanHold(cs[i]) {
      var d := SetMatching(cs);
      assert SomeSetHolds(e.conditions, d);
    }
    if CanMatch(e) {
      var d := Matching(e);
      forall i | 0 <= i < |cs| ensures CanHold(cs[i]) {
        assert Holds(cs[i], d);
        CanHoldIff(cs[i], d);
      }
    }
  }
}
