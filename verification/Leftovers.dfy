/** When the filter is the plain first match on every record: what failing conditions leave in the accumulator, and what the
    comparisons behind them make of it. */
module Leftovers {
  import opened Words
  import opened Bpf
  import opened Policies
  import opened Merge
  import opened Shapes
  import opened Compiler
  import opened Correctness
  import opened Plain

  // ---- what a failing condition can leave behind ----

  /** The argument halves a failing condition can leave in the accumulator. */
  predicate CanLeave(c: Condition, m: uint32) {
    var hi, lo := Hi(c.value), Lo(c.value);
    match c.op
    case Equal => m != hi || m != lo
    case NotEqual => m == lo
    case GreaterThan => m < hi || m <= lo
    case GreaterOrEqual => m < hi || m < lo
    case LessThan => m > hi || m >= lo
    case LessOrEqual => m > hi || m > lo
    case BitsSet => !SharesBit(m, lo)
    case BitsNotSet => SharesBit(m, hi) || SharesBit(m, lo)
  }

  function FromHalves(hi: uint32, lo: uint32): (v: uint64)
    ensures Hi(v) == hi && Lo(v) == lo
  {
    hi * TWO_TO_32 + lo
  }

  /** A value of the argument on which the condition fails and leaves `m`. */
  function Failing(c: Condition, m: uint32): uint64 {
    var hi, lo := Hi(c.value), Lo(c.value);
    match c.op
    case Equal => if m != hi then FromHalves(m, 0) else FromHalves(hi, m)
    case NotEqual => c.value
    case GreaterThan => if m < hi then FromHalves(m, 0) else FromHalves(hi, m)
    case GreaterOrEqual => if m < hi then FromHalves(m, 0) else FromHalves(hi, m)
    case LessThan => if m > hi then FromHalves(m, 0) else FromHalves(hi, m)
    case LessOrEqual => if m > hi then FromHalves(m, 0) else FromHalves(hi, m)
    case BitsSet => FromHalves(0, m)
    case BitsNotSet => if SharesBit(m, hi) then FromHalves(m, 0) else FromHalves(0, m)
  }

  function WithArgument(nr: uint32, id: uint32, c: Condition, x: uint64): SeccompData
    requires c.arg <= 5
  {
    Record(nr, id, 0, [0, 0, 0, 0, 0, 0][c.arg := x])
  }

  lemma Halves(x: uint64)
    ensures x == Hi(x) * TWO_TO_32 + Lo(x)
  {}

  /** The closed form is exact, for each of the eight operations. */
  lemma CanLeaveIff(c: Condition, m: uint32)
    requires c.arg <= 5
    ensures CanLeave(c, m) <==> exists d: SeccompData :: !Holds(c, d) && Leftover(c, d) == m
  {
    if CanLeave(c, m) {
      FailingLeaves(c, m, WithArgument(0, 0, c, Failing(c, m)));
    }
    if d: SeccompData :| !Holds(c, d) && Leftover(c, d) == m {
      LeavesOnly(c, d);
    }
  }

  lemma LeavesOnly(c: Condition, d: SeccompData)
    requires c.arg <= 5 && !Holds(c, d)
    ensures CanLeave(c, Leftover(c, d))
  {
    hide SharesBit;
    HiLoBits(d.args[c.arg], c.value);
    Halves(d.args[c.arg]);
    Halves(c.value);
  }

  lemma FailingLeaves(c: Condition, m: uint32, d: SeccompData)
    requires c.arg <= 5 && CanLeave(c, m) && d.args[c.arg] == Failing(c, m)
    ensures !Holds(c, d) && Leftover(c, d) == m
  {
    if c.op.BitsSet? || c.op.BitsNotSet? {
      assert !SharesBit(0, Hi(c.value)) && !SharesBit(0, Lo(c.value));
      hide SharesBit, FromHalves, Hi, Lo;
      HiLoBits(d.args[c.arg], c.value);
    } else {
      hide SharesBit;
      Halves(d.args[c.arg]);
      Halves(c.value);
    }
  }

  // ---- entries ----

  /** Some arguments make all sets of the entry fail and leave `m`. */
  ghost predicate Leaves(e: Entry, m: uint32)
    requires Usable(e) && e.conditions != []
  {
    exists d: SeccompData :: LeavesOn(e, d, m)
  }

  predicate LeavesOn(e: Entry, d: SeccompData, m: uint32)
    requires Usable(e) && e.conditions != []
  {
    !SomeSetHolds(e.conditions, d) && SetLeftover(e.conditions[|e.conditions| - 1], d) == m
  }

  lemma {:induction false} SetSameArguments(cs: ConditionSet, d: SeccompData, d': SeccompData)
    requires cs != [] && ValidSet(cs) && d.args == d'.args
    ensures SetHolds(cs, d) <==> SetHolds(cs, d')
    ensures SetLeftover(cs, d) == SetLeftover(cs, d')
  {
    assert forall k :: 0 <= k < |cs| ==> Holds(cs[k], d) == Holds(cs[k], d');
    if |cs| > 1 {
      SetSameArguments(cs[1..], d, d');
    }
  }

  /** Only the arguments matter. */
  lemma SameArguments(e: Entry, d: SeccompData, d': SeccompData, m: uint32)
    requires Usable(e) && e.conditions != [] && d.args == d'.args
    ensures LeavesOn(e, d, m) <==> LeavesOn(e, d', m)
    ensures SomeSetHolds(e.conditions, d) <==> SomeSetHolds(e.conditions, d')
  {
    hide SetHolds, SetLeftover;
    forall k | 0 <= k < |e.conditions| ensures SetHolds(e.conditions[k], d) <==> SetHolds(e.conditions[k], d') {
      SetSameArguments(e.conditions[k], d, d');
    }
    SetSameArguments(e.conditions[|e.conditions| - 1], d, d');
  }

  /** An entry with a single condition leaves what that condition can leave. */
  lemma OneConditionLeaves(num: uint32, c: Condition, m: uint32)
    requires c.arg <= 5
    ensures Usable(Entry(num, [[c]]))
    ensures Leaves(Entry(num, [[c]]), m) <==> CanLeave(c, m)
  {
    hide CanLeave, Holds, Leftover;
    var e := Entry(num, [[c]]);
    assert Usable(e);
    CanLeaveIff(c, m);
    forall d: SeccompData ensures LeavesOn(e, d, m) <==> !Holds(c, d) && Leftover(c, d) == m {
      var cs, sets: seq<ConditionSet> := [c], [[c]];
      assert cs[0] == c && sets[0] == cs;
      assert SetHolds(cs, d) <==> Holds(c, d);
      assert SomeSetHolds(sets, d) <==> SetHolds(cs, d);
    }
  }

  // ---- what the comparisons behind make of a number ----

  /** What plain comparisons return for a number: the first that has it decides. */
  function FirstReturn(cs: seq<Comparison>, default: uint32, m: uint32): uint32 {
    if cs == [] then ReturnValue(default)
    else if cs[0].entry.num == m then ReturnValue(cs[0].action)
    else FirstReturn(cs[1..], default, m)
  }

  predicate AllPlain(cs: seq<Comparison>) { forall i :: 0 <= i < |cs| ==> cs[i].entry.conditions == [] }

  lemma {:induction false} PlainComparisons(cs: seq<Comparison>, default: uint32, m: uint32, d: SeccompData)
    requires AllUsable(cs) && AllPlain(cs)
    ensures Thread(cs, default, m, d) == Compare(cs, default, m, d) == FirstReturn(cs, default, m)
  {
    if cs != [] {
      PlainComparisons(cs[1..], default, m, d);
    }
  }

  /** Comparison `i` is the first with its number. */
  predicate First(cs: seq<Comparison>, i: nat)
    requires i < |cs|
  {
    forall j :: 0 <= j < i ==> cs[j].entry.num != cs[i].entry.num
  }

  lemma {:induction false} FirstReturnAt(cs: seq<Comparison>, default: uint32, i: nat)
    requires i < |cs| && First(cs, i)
    ensures FirstReturn(cs, default, cs[i].entry.num) == ReturnValue(cs[i].action)
  {
    if i > 0 {
      assert cs[0].entry.num != cs[i].entry.num;
      FirstReturnAt(cs[1..], default, i - 1);
    }
  }

  lemma {:induction false} FirstReturnOf(cs: seq<Comparison>, default: uint32, m: uint32)
    ensures || (FirstReturn(cs, default, m) == ReturnValue(default) && forall i :: 0 <= i < |cs| ==> cs[i].entry.num != m)
            || (exists i :: 0 <= i < |cs| && First(cs, i) && cs[i].entry.num == m
                  && FirstReturn(cs, default, m) == ReturnValue(cs[i].action))
  {
    if cs != [] {
      if cs[0].entry.num == m {
        assert First(cs, 0);
      } else {
        FirstReturnOf(cs[1..], default, m);
        if i :| 0 <= i < |cs[1..]| && First(cs[1..], i) && cs[1..][i].entry.num == m {
          assert First(cs, i + 1) by {
            forall j | 0 <= j < i + 1 ensures cs[j].entry.num != cs[i + 1].entry.num {
              if j > 0 {
                assert cs[1..][j - 1].entry.num != cs[1..][i].entry.num;
              }
            }
          }
        }
      }
    }
  }

  // ---- the filter on all records ----

  ghost predicate PlainOnAll(groups: seq<SyscallGroup>, default: uint32, arch: ArchInfo, o: Order) {
    && Filter(groups, default, arch, o).Ok?
    && forall acc: uint32, d: SeccompData ::
         Run(Filter(groups, default, arch, o).value, acc, EnvOf(d, o)) == Verdict(PlainVerdict(groups, default, arch, d))
  }

  /** Both verdicts, on the comparisons of the policy. */
  lemma VerdictsOf(groups: seq<SyscallGroup>, default: uint32, arch: ArchInfo, o: Order, acc: uint32, d: SeccompData)
    requires SafeGroups(groups, arch) && Fits(groups, arch)
    ensures AllUsable(Comparisons(groups, arch)) && Filter(groups, default, arch, o).Ok?
    ensures var v, cs := Run(Filter(groups, default, arch, o).value, acc, EnvOf(d, o)), Comparisons(groups, arch);
            if d.arch != arch.id || (arch.id == X86_64_ID && d.nr >= X32_SYSCALL_BIT) then
              v == Verdict(PlainVerdict(groups, default, arch, d))
            else
              v == Verdict(Thread(cs, default, d.nr, d))
              && PlainVerdict(groups, default, arch, d) == Compare(cs, default, d.nr, d)
  {
    hide SafeGroups, Evaluable, Fits, Run, EnvOf, Filter, Comparisons, Thread, Compare, ThreadGroups, FirstMatch;
    SafeIsEvaluable(groups, arch);
    GroupsAsComparisons(groups, default, arch, d.nr, d);
    FirstMatchAsComparisons(groups, default, arch, d);
    CompilerCorrect(groups, default, arch, o, acc, d);
  }

  /** A conditional comparison that a call of its number reaches. */
  predicate Reached(cs: seq<Comparison>, k: nat) {
    && k < |cs| && cs[k].entry.conditions != []
    && forall i :: 0 <= i < k ==> cs[i].entry.num != cs[k].entry.num
  }

  /** A call of the number of comparison `k` can get past the check for foreign and x32 calls. */
  predicate Admitted(arch: ArchInfo, num: uint32) { arch.id == X86_64_ID ==> num < X32_SYSCALL_BIT }

  /** A record on which a reached conditional comparison fails and leaves `m`. */
  lemma LeavingRecord(groups: seq<SyscallGroup>, default: uint32, arch: ArchInfo, o: Order, acc: uint32, k: nat, m: uint32)
    returns (d: SeccompData)
    requires SafeGroups(groups, arch) && Fits(groups, arch) && AllUsable(Comparisons(groups, arch))
    requires var cs := Comparisons(groups, arch);
             Reached(cs, k) && Admitted(arch, cs[k].entry.num) && Leaves(cs[k].entry, m)
    ensures Filter(groups, default, arch, o).Ok? && d.nr == Comparisons(groups, arch)[k].entry.num && d.arch == arch.id
    ensures var rest := Comparisons(groups, arch)[k + 1..];
            && Run(Filter(groups, default, arch, o).value, acc, EnvOf(d, o)) == Verdict(Thread(rest, default, m, d))
            && PlainVerdict(groups, default, arch, d) == Compare(rest, default, d.nr, d)
  {
    hide SafeGroups, Fits, Run, EnvOf, Filter, Comparisons, Thread, Compare, PlainVerdict, SomeSetHolds, SetLeftover;
    var cs := Comparisons(groups, arch);
    var e := cs[k].entry;
    var x: SeccompData :| LeavesOn(e, x, m);
    d := Record(e.num, arch.id, 0, x.args);
    SameArguments(e, x, d, m);
    VerdictsOf(groups, default, arch, o, acc, d);
    Clobbered(cs, default, d.nr, d, k);
  }

  /** An argument passes for a system-call number: when a reached conditional comparison can leave `m`, and the first
      comparison behind it that has the number `m` is plain, some call of another number gets that comparison's action. */
  lemma ArgumentTakenForNumber(groups: seq<SyscallGroup>, default: uint32, arch: ArchInfo, o: Order, acc: uint32,
                               k: nat, m: uint32, j: nat) returns (d: SeccompData)
    requires SafeGroups(groups, arch) && Fits(groups, arch) && AllUsable(Comparisons(groups, arch))
    requires var cs := Comparisons(groups, arch);
             Reached(cs, k) && Admitted(arch, cs[k].entry.num) && Leaves(cs[k].entry, m)
    requires var cs := Comparisons(groups, arch);
             k < j < |cs| && cs[j].entry == Entry(m, []) && forall i :: k < i < j ==> cs[i].entry.num != m
    ensures var cs := Comparisons(groups, arch);
            && Filter(groups, default, arch, o).Ok? && d.nr == cs[k].entry.num
            && Run(Filter(groups, default, arch, o).value, acc, EnvOf(d, o)) == Verdict(ReturnValue(cs[j].action))
            && ((forall i :: k < i < |cs| ==> cs[i].entry.num != d.nr) ==>
                  PlainVerdict(groups, default, arch, d) == ReturnValue(default))
  {
    hide SafeGroups, Fits, Run, EnvOf, Filter, Comparisons, Thread, Compare, PlainVerdict, Leaves;
    d := LeavingRecord(groups, default, arch, o, acc, k, m);
    var cs := Comparisons(groups, arch);
    var rest := cs[k + 1..];
    ThreadToPlain(rest, default, m, d, j - k - 1);
    if forall i :: k < i < |cs| ==> cs[i].entry.num != d.nr {
      NotNamed(rest, default, d.nr, d);
    }
  }

  lemma {:induction false} ThreadToPlain(cs: seq<Comparison>, default: uint32, m: uint32, d: SeccompData, j: nat)
    requires AllUsable(cs) && j < |cs| && cs[j].entry == Entry(m, []) && forall i :: 0 <= i < j ==> cs[i].entry.num != m
    ensures Thread(cs, default, m, d) == ReturnValue(cs[j].action)
  {
    if j > 0 {
      ThreadToPlain(cs[1..], default, m, d, j - 1);
    }
  }

  lemma {:induction false} NotNamed(cs: seq<Comparison>, default: uint32, m: uint32, d: SeccompData)
    requires AllUsable(cs) && forall i :: 0 <= i < |cs| ==> cs[i].entry.num != m
    ensures Compare(cs, default, m, d) == ReturnValue(default)
  {
    if cs != [] {
      NotNamed(cs[1..], default, m, d);
    }
  }

  // ---- policies with one conditional comparison ----

  /** Comparison `k` is the only conditional one that a call of its number reaches, and those behind it are plain. */
  predicate OneConditional(cs: seq<Comparison>, k: nat) {
    && Reached(cs, k)
    && (forall i :: 0 <= i < k && cs[i].entry.conditions != [] ==> Covered(cs, i))
    && (forall i :: k < i < |cs| ==> cs[i].entry.conditions == [])
  }

  /** For a policy with one conditional comparison, the filter is the plain first match on every record if and only if the
      comparisons behind it return the same for everything it can leave in the accumulator as for its own number. */
  lemma PlainOnAllIff(groups: seq<SyscallGroup>, default: uint32, arch: ArchInfo, o: Order, k: nat)
    requires SafeGroups(groups, arch) && Fits(groups, arch) && AllUsable(Comparisons(groups, arch))
    requires OneConditional(Comparisons(groups, arch), k) && Admitted(arch, Comparisons(groups, arch)[k].entry.num)
    ensures var e, rest := Comparisons(groups, arch)[k].entry, Comparisons(groups, arch)[k + 1..];
            PlainOnAll(groups, default, arch, o) <==>
            forall m: uint32 :: Leaves(e, m) ==> FirstReturn(rest, default, m) == FirstReturn(rest, default, e.num)
  {
    hide SafeGroups, Fits, Run, EnvOf, Filter, Comparisons, Thread, Compare, PlainVerdict, Leaves, FirstReturn;
    var cs := Comparisons(groups, arch);
    var e, rest := cs[k].entry, cs[k + 1..];
    if PlainOnAll(groups, default, arch, o) {
      forall m: uint32 | Leaves(e, m) ensures FirstReturn(rest, default, m) == FirstReturn(rest, default, e.num) {
        var d := LeavingRecord(groups, default, arch, o, 0, k, m);
        PlainComparisons(rest, default, m, d);
        PlainComparisons(rest, default, e.num, d);
      }
    }
    if forall m: uint32 :: Leaves(e, m) ==> FirstReturn(rest, default, m) == FirstReturn(rest, default, e.num) {
      VerdictsOf(groups, default, arch, o, 0, Record(0, 0, 0, [0, 0, 0, 0, 0, 0]));
      forall acc: uint32, d: SeccompData
        ensures Run(Filter(groups, default, arch, o).value, acc, EnvOf(d, o)) == Verdict(PlainVerdict(groups, default, arch, d))
      {
        VerdictsOf(groups, default, arch, o, acc, d);
        OneConditionalAgrees(cs, default, k, d);
      }
    }
  }

  lemma OneConditionalAgrees(cs: seq<Comparison>, default: uint32, k: nat, d: SeccompData)
    requires AllUsable(cs) && OneConditional(cs, k)
    requires forall m: uint32 :: Leaves(cs[k].entry, m) ==>
               FirstReturn(cs[k + 1..], default, m) == FirstReturn(cs[k + 1..], default, cs[k].entry.num)
    ensures Thread(cs, default, d.nr, d) == Compare(cs, default, d.nr, d)
  {
    hide Thread, Compare, FirstReturn, SomeSetHolds, SetLeftover;
    var e, rest := cs[k].entry, cs[k + 1..];
    if Clobbers(e, d.nr, d) {
      var m := SetLeftover(e.conditions[|e.conditions| - 1], d);
      assert LeavesOn(e, d, m);
      assert Leaves(e, m);
      Clobbered(cs, default, d.nr, d, k);
      PlainComparisons(rest, default, m, d);
      PlainComparisons(rest, default, d.nr, d);
    } else {
      forall i | 0 <= i < |cs| - 1 && Clobbers(cs[i].entry, d.nr, d)
        ensures exists p :: 0 <= p < i && EntryMatches(cs[p].entry, d.nr, d)
      {
        assert Covered(cs, i);
        var p :| 0 <= p < i && cs[p].entry == Entry(cs[i].entry.num, []);
        assert EntryMatches(cs[p].entry, d.nr, d);
      }
      UndisturbedIsPlain(cs, default, d.nr, d);
    }
  }

  // ---- a single test for equality ----

  lemma {:induction false} InSet(nums: seq<uint32>) returns (all: set<uint32>)
    ensures |all| <= |nums| && forall x :: x in nums ==> x in all
  {
    if nums == [] {
      all := {};
    } else {
      var rest := InSet(nums[1..]);
      all := rest + {nums[0]};
    }
  }

  lemma {:induction false} SmallSet(all: set<uint32>, n: nat)
    requires n <= TWO_TO_32 && forall x: uint32 :: x < n ==> x in all
    ensures |all| >= n
  {
    if n > 0 {
      var last: uint32 := n - 1;
      SmallSet(all - {last}, n - 1);
    }
  }

  /** Fewer than 2^32 numbers leave one unused. */
  lemma UnusedNumber(nums: seq<uint32>) returns (m: uint32)
    requires |nums| < TWO_TO_32
    ensures m !in nums
  {
    var all := InSet(nums);
    if forall x: uint32 :: x < TWO_TO_32 ==> x in all {
      SmallSet(all, TWO_TO_32);
    }
    m :| m < TWO_TO_32 && m !in all;
  }

  lemma {:induction false} ComparisonsBounded(groups: seq<SyscallGroup>, arch: ArchInfo)
    ensures |Comparisons(groups, arch)| <= PolicySize(groups, arch)
  {
    hide MergeGroup, Tagged, EntriesSize;
    if groups != [] {
      var es := MergeGroup(groups[0], arch).entries;
      TaggedEntries(es, groups[0].action);
      EntriesBounded(es);
      if EmptyGroup(groups[0]) {
        EmptyMergesToNothing(groups[0], arch);
      }
      ComparisonsBounded(groups[1..], arch);
    }
  }

  lemma {:induction false} EntriesBounded(es: seq<Entry>)
    ensures |es| <= EntriesSize(es)
  {
    if es != [] {
      EntriesBounded(es[1..]);
    }
  }

  /** With a single test for equality with `v`, the filter is the plain first match on every record if and only if every
      comparison behind it, where its number stands first, returns the default; only a number that is both halves of `v`, and
      not the entry's own, is excused. */
  lemma EqualPlainIff(groups: seq<SyscallGroup>, default: uint32, arch: ArchInfo, o: Order, k: nat, c: Condition)
    requires SafeGroups(groups, arch) && Fits(groups, arch) && AllUsable(Comparisons(groups, arch))
    requires OneConditional(Comparisons(groups, arch), k) && Admitted(arch, Comparisons(groups, arch)[k].entry.num)
    requires Comparisons(groups, arch)[k].entry.conditions == [[c]] && c.op.Equal?
    ensures var n, rest := Comparisons(groups, arch)[k].entry.num, Comparisons(groups, arch)[k + 1..];
            PlainOnAll(groups, default, arch, o) <==>
            forall i :: 0 <= i < |rest| && First(rest, i) && Counts(rest[i].entry.num, c.value, n) ==>
              ReturnValue(rest[i].action) == ReturnValue(default)
  {
    hide SafeGroups, Fits, Comparisons, PlainOnAll, Leaves, PolicySize, FirstReturn, First;
    var cs := Comparisons(groups, arch);
    var e, rest := cs[k].entry, cs[k + 1..];
    assert Usable(e) && e.conditions[0][0] == c;
    ComparisonsBounded(groups, arch);
    RestFits(groups, arch, k);
    PlainOnAllIff(groups, default, arch, o, k);
    forall m: uint32 ensures Leaves(e, m) <==> CanLeave(c, m) {
      OneConditionLeaves(e.num, c, m);
    }
    EqualAgrees(rest, default, c, e.num);
  }

  /** The comparison's number can be in the accumulator, or is the one the plain verdict goes by. */
  predicate Counts(m: uint32, v: uint64, n: uint32) { m != Hi(v) || m != Lo(v) || m == n }

  lemma RestFits(groups: seq<SyscallGroup>, arch: ArchInfo, k: nat)
    requires Fits(groups, arch) && k < |Comparisons(groups, arch)|
    ensures |Comparisons(groups, arch)[k + 1..]| + 1 < TWO_TO_32
  {
    hide PolicySize, Comparisons;
    ComparisonsBounded(groups, arch);
  }

  lemma EqualAgrees(rest: seq<Comparison>, default: uint32, c: Condition, n: uint32)
    requires |rest| + 1 < TWO_TO_32 && c.op.Equal?
    ensures (forall m: uint32 :: CanLeave(c, m) ==> FirstReturn(rest, default, m) == FirstReturn(rest, default, n)) <==>
            (forall i :: 0 <= i < |rest| && First(rest, i) && Counts(rest[i].entry.num, c.value, n) ==>
               ReturnValue(rest[i].action) == ReturnValue(default))
  {
    hide FirstReturn, First, ReturnValue, Hi, Lo;
    if forall m: uint32 :: CanLeave(c, m) ==> FirstReturn(rest, default, m) == FirstReturn(rest, default, n) {
      var u := UnusedNumber(seq(|rest|, i requires 0 <= i < |rest| => rest[i].entry.num) + [Hi(c.value)]);
      Unnamed(rest, default, u, Hi(c.value));
      assert CanLeave(c, u);
      forall i | 0 <= i < |rest| && First(rest, i) && Counts(rest[i].entry.num, c.value, n)
        ensures ReturnValue(rest[i].action) == ReturnValue(default)
      {
        FirstReturnAt(rest, default, i);
      }
    }
    if forall i :: 0 <= i < |rest| && First(rest, i) && Counts(rest[i].entry.num, c.value, n) ==>
         ReturnValue(rest[i].action) == ReturnValue(default)
    {
      forall m: uint32 | CanLeave(c, m) ensures FirstReturn(rest, default, m) == FirstReturn(rest, default, n) {
        FirstReturnOf(rest, default, m);
        FirstReturnOf(rest, default, n);
      }
    }
  }

  lemma Unnamed(rest: seq<Comparison>, default: uint32, u: uint32, other: uint32)
    requires u !in seq(|rest|, i requires 0 <= i < |rest| => rest[i].entry.num) + [other]
    ensures u != other && FirstReturn(rest, default, u) == ReturnValue(default)
  {
    var nums := seq(|rest|, i requires 0 <= i < |rest| => rest[i].entry.num);
    assert (nums + [other])[|rest|] == other;
    FirstReturnOf(rest, default, u);
    forall i | 0 <= i < |rest| ensures rest[i].entry.num != u {
      assert (nums + [other])[i] == rest[i].entry.num;
    }
  }

  // ---- a set of conditions on different arguments ----

  /** Some argument satisfies the condition. */
  predicate CanHold(c: Condition) {
    match c.op
    case GreaterThan => c.value < 0xffff_ffff_ffff_ffff
    case LessThan => c.value > 0
    case BitsSet => c.value != 0
    case _ => true
  }

  function Holding(c: Condition): uint64 {
    match c.op
    case NotEqual => if c.value == 0 then 1 else 0
    case GreaterThan => 0xffff_ffff_ffff_ffff
    case LessThan => 0
    case BitsNotSet => 0
    case _ => c.value
  }

  lemma {:induction false} SharesItself(x: nat)
    ensures SharesBit(x, x) <==> x != 0
  {
    if x != 0 {
      SharesItself(x / 2);
    }
  }

  lemma CanHoldIff(c: Condition, d: SeccompData)
    requires c.arg <= 5
    ensures Holds(c, d) ==> CanHold(c)
    ensures CanHold(c) && d.args[c.arg] == Holding(c) ==> Holds(c, d)
  {
    SharesItself(c.value);
  }

  predicate DifferentArguments(cs: ConditionSet) { forall i, j :: 0 <= i < j < |cs| ==> cs[i].arg != cs[j].arg }

  /** Some condition leaves `m` where those before it can hold. */
  predicate SetCanLeave(cs: ConditionSet, m: uint32) {
    cs != [] && (CanLeave(cs[0], m) || (CanHold(cs[0]) && SetCanLeave(cs[1..], m)))
  }

  lemma {:induction false} SetLeavesOnly(cs: ConditionSet, d: SeccompData)
    requires cs != [] && ValidSet(cs) && !SetHolds(cs, d)
    ensures SetCanLeave(cs, SetLeftover(cs, d))
  {
    hide CanLeave, CanHold, Holds, Leftover;
    CanHoldIff(cs[0], d);
    if !Holds(cs[0], d) {
      LeavesOnly(cs[0], d);
    } else {
      assert |cs| > 1;
      assert !SetHolds(cs[1..], d) by {
        var k :| 0 <= k < |cs| && !Holds(cs[k], d);
        assert cs[1..][k - 1] == cs[k];
      }
      SetLeavesOnly(cs[1..], d);
    }
  }

  lemma {:induction false} OtherArgument(cs: ConditionSet, d: SeccompData, d': SeccompData, a: uint32)
    requires cs != [] && ValidSet(cs) && a <= 5 && d'.args == d.args[a := d'.args[a]]
    requires forall i :: 0 <= i < |cs| ==> cs[i].arg != a
    ensures SetHolds(cs, d) <==> SetHolds(cs, d')
    ensures SetLeftover(cs, d) == SetLeftover(cs, d')
  {
    assert forall k :: 0 <= k < |cs| ==> Holds(cs[k], d) == Holds(cs[k], d');
    assert Leftover(cs[0], d) == Leftover(cs[0], d');
    if |cs| > 1 {
      OtherArgument(cs[1..], d, d', a);
    }
  }

  lemma {:induction false} SetFailing(cs: ConditionSet, m: uint32) returns (d: SeccompData)
    requires ValidSet(cs) && DifferentArguments(cs) && SetCanLeave(cs, m)
    ensures !SetHolds(cs, d) && SetLeftover(cs, d) == m
  {
    hide CanLeave, CanHold, Holds, Leftover, Failing, Holding;
    var c := cs[0];
    if CanLeave(c, m) {
      d := WithArgument(0, 0, c, Failing(c, m));
      FailingLeaves(c, m, d);
    } else {
      var x := SetFailing(cs[1..], m);
      d := Record(0, 0, 0, x.args[c.arg := Holding(c)]);
      CanHoldIff(c, d);
      OtherArgument(cs[1..], x, d, c.arg);
      assert !SetHolds(cs, d) by {
        var k :| 0 <= k < |cs[1..]| && !Holds(cs[1..][k], d);
        assert cs[k + 1] == cs[1..][k];
      }
    }
  }

  /** What an entry with one set of conditions on different arguments can leave. */
  lemma OneSetLeaves(num: uint32, cs: ConditionSet, m: uint32)
    requires cs != [] && ValidSet(cs) && DifferentArguments(cs)
    ensures Usable(Entry(num, [cs])) && (Leaves(Entry(num, [cs]), m) <==> SetCanLeave(cs, m))
  {
    hide SetHolds, SetLeftover, SetCanLeave, DifferentArguments;
    var e := Entry(num, [cs]);
    assert e.conditions[0] == cs;
    assert Usable(e);
    forall d: SeccompData ensures LeavesOn(e, d, m) <==> !SetHolds(cs, d) && SetLeftover(cs, d) == m {
      assert SomeSetHolds([cs], d) <==> SetHolds(cs, d);
    }
    if SetCanLeave(cs, m) {
      var d := SetFailing(cs, m);
      assert LeavesOn(e, d, m);
    }
    if d: SeccompData :| LeavesOn(e, d, m) {
      SetLeavesOnly(cs, d);
    }
  }
}
