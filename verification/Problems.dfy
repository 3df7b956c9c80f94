/** The problems a group is rejected with: which ones, and in what order. */
module Problems {
  import opened Policies
  import opened Merge

  // ---- arguments out of range ----

  /** The list names the arguments above 5 at the positions `ps`, which are all of them in order. */
  predicate ListedAt(cs: ConditionSet, r: seq<Problem>, ps: seq<nat>) {
    && |ps| == |r|
    && (forall i, j :: 0 <= i < j < |ps| ==> ps[i] < ps[j])
    && (forall i :: 0 <= i < |ps| ==> ps[i] < |cs| && cs[ps[i]].arg > 5 && r[i] == BadArgument(cs[ps[i]].arg))
    && (forall k :: 0 <= k < |cs| && cs[k].arg > 5 ==> k in ps)
  }

  lemma ListedStep(cs: ConditionSet, c: Condition, r: seq<Problem>, ps: seq<nat>)
    requires ListedAt(cs, r, ps)
    ensures c.arg <= 5 ==> ListedAt(cs + [c], r, ps)
    ensures c.arg > 5 ==> ListedAt(cs + [c], r + [BadArgument(c.arg)], ps + [|cs|])
  {
    var all, more := cs + [c], ps + [|cs|];
    forall k | 0 <= k < |all| && all[k].arg > 5 ensures k in more && (c.arg <= 5 ==> k in ps) {
      if k < |cs| {
        assert k in ps;
      } else {
        assert more[|ps|] == k;
      }
    }
  }

  /** One problem for every argument above 5, in the order of the conditions. */
  lemma {:induction false} BadArgumentsAt(cs: ConditionSet) returns (ps: seq<nat>)
    ensures ListedAt(cs, BadArguments(cs), ps)
  {
    hide ListedAt;
    if cs == [] {
      ps := [];
      assert ListedAt([], [], ps) by { NothingListed(); }
    } else {
      var init, c := cs[..|cs| - 1], cs[|cs| - 1];
      ps := BadArgumentsAt(init);
      ListedStep(init, c, BadArguments(init), ps);
      assert cs == init + [c] && BadArguments(init) + [] == BadArguments(init);
      if c.arg > 5 {
        ps := ps + [|init|];
      }
    }
  }

  lemma NothingListed()
    ensures ListedAt([], [], [])
  {}

  // ---- all problems of a group ----

  function Flatten(ss: seq<seq<Problem>>): seq<Problem> { if ss == [] then [] else ss[0] + Flatten(ss[1..]) }

  lemma {:induction false} FlattenSnoc(ss: seq<seq<Problem>>, s: seq<Problem>)
    ensures Flatten(ss + [s]) == Flatten(ss) + s
  {
    if ss == [] {
      assert [s][1..] == [] && s + [] == s;
    } else {
      assert (ss + [s])[1..] == ss[1..] + [s];
      FlattenSnoc(ss[1..], s);
    }
  }

  /** The problem with plain name `k`: it is unknown, or a known name in front of it has the same number. */
  function NameProblems(arch: ArchInfo, names: seq<string>, k: nat): seq<Problem>
    requires k < |names|
  {
    if names[k] !in arch.syscallNames then [UnknownSyscall(names[k])]
    else if Plain(arch, names[..k], Number(arch, names[k])) then [DuplicateSyscall(names[k])]
    else []
  }

  /** The problems with a conditional name: it is unknown, has arguments out of range, or is also a plain name. */
  function ConditionalProblems(arch: ArchInfo, names: seq<string>, nc: NameWithConditions): seq<Problem> {
    if nc.name !in arch.syscallNames then [UnknownSyscall(nc.name)]
    else if !ValidSet(nc.conditions) then BadArguments(nc.conditions)
    else if Plain(arch, names, Number(arch, nc.name)) then [ConditionalAndUnconditional(nc.name)]
    else []
  }

  function AllNameProblems(arch: ArchInfo, names: seq<string>): (r: seq<seq<Problem>>)
    ensures |r| == |names|
  {
    seq(|names|, k requires 0 <= k < |names| => NameProblems(arch, names, k))
  }

  function AllConditionalProblems(arch: ArchInfo, names: seq<string>, ncs: seq<NameWithConditions>): (r: seq<seq<Problem>>)
    ensures |r| == |ncs|
  {
    seq(|ncs|, k requires 0 <= k < |ncs| => ConditionalProblems(arch, names, ncs[k]))
  }

  lemma {:induction false} NamesReport(arch: ArchInfo, names: seq<string>)
    ensures MergeNames(arch, names).problems == Flatten(AllNameProblems(arch, names))
  {
    hide NameProblems, AllNameProblems;
    if names == [] {
      assert AllNameProblems(arch, names) == [];
    } else {
      var k, init := |names| - 1, names[..|names| - 1];
      NamesReport(arch, init);
      NameReports(arch, names);
      ListedNames(arch, names);
      FlattenSnoc(AllNameProblems(arch, init), NameProblems(arch, names, k));
    }
  }

  lemma NameReports(arch: ArchInfo, names: seq<string>)
    requires names != []
    ensures var k := |names| - 1;
            MergeNames(arch, names).problems == MergeNames(arch, names[..k]).problems + NameProblems(arch, names, k)
  {
    hide Number, Plain, Has;
    NamesMerged(arch, names[..|names| - 1]);
  }

  lemma ListedNames(arch: ArchInfo, names: seq<string>)
    requires names != []
    ensures var k := |names| - 1;
            AllNameProblems(arch, names) == AllNameProblems(arch, names[..k]) + [NameProblems(arch, names, k)]
  {
    hide Number, Plain;
    var k := |names| - 1;
    forall i | 0 <= i < k ensures NameProblems(arch, names, i) == NameProblems(arch, names[..k], i) {
      assert names[..i] == names[..k][..i];
    }
  }

  lemma {:induction false} ConditionalsReport(arch: ArchInfo, names: seq<string>, ncs: seq<NameWithConditions>)
    ensures MergeConditionals(arch, names, ncs).problems
            == Flatten(AllNameProblems(arch, names)) + Flatten(AllConditionalProblems(arch, names, ncs))
  {
    hide Number, Plain, AddConditional, ConditionalProblems, AllNameProblems;
    if ncs == [] {
      NamesReport(arch, names);
      assert AllConditionalProblems(arch, names, ncs) == [];
    } else {
      var k, init := |ncs| - 1, ncs[..|ncs| - 1];
      ConditionalsReport(arch, names, init);
      ConditionalsMerged(arch, names, init);
      AddReports(arch, names, MergeConditionals(arch, names, init), ncs[k]);
      assert AllConditionalProblems(arch, names, ncs)
          == AllConditionalProblems(arch, names, init) + [ConditionalProblems(arch, names, ncs[k])];
      FlattenSnoc(AllConditionalProblems(arch, names, init), ConditionalProblems(arch, names, ncs[k]));
    }
  }

  lemma AddReports(arch: ArchInfo, names: seq<string>, m: Merged, nc: NameWithConditions)
    requires MergedWell(arch, names, m)
    ensures AddConditional(m, arch, nc).problems == m.problems + ConditionalProblems(arch, names, nc)
  {
    hide Number, BadArguments;
    if nc.name in arch.syscallNames && ValidSet(nc.conditions) {
      var num := Number(arch, nc.name);
      assert BadArguments(nc.conditions) == [] by { NoBadArguments(nc.conditions); }
      if Plain(arch, names, num) {
        var i :| 0 <= i < |names| && names[i] in arch.syscallNames && Number(arch, names[i]) == num;
        assert Has(m.entries, num);
      }
    } else if nc.name in arch.syscallNames {
      SomeBadArguments(nc.conditions);
    }
  }

  lemma NoBadArguments(cs: ConditionSet)
    requires ValidSet(cs)
    ensures BadArguments(cs) == []
  {}

  lemma SomeBadArguments(cs: ConditionSet)
    requires !ValidSet(cs)
    ensures BadArguments(cs) != []
  {}

  /** A group that does not merge reports every problem: those of its plain names in order, then those of its conditional
      names in order. */
  lemma MergeReports(g: SyscallGroup, arch: ArchInfo)
    ensures MergeGroup(g, arch).problems
            == Flatten(AllNameProblems(arch, g.names)) + Flatten(AllConditionalProblems(arch, g.names, g.withConditions))
  {
    ConditionalsReport(arch, g.names, g.withConditions);
  }
}
