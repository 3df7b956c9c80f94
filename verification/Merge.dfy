/** Merging the names of a group into one list of system calls with their alternative condition sets. */
module Merge {
  import opened Results
  import opened Words
  import opened Bpf
  import opened Policies

  datatype Problem =
    | DuplicateSyscall(name: string)
    | UnknownSyscall(name: string)
    | BadArgument(arg: uint32)
    | ConditionalAndUnconditional(name: string)

  // ---- what the two loops do ----

  function BadArguments(cs: ConditionSet): (r: seq<Problem>)
    ensures r == [] <==> ValidSet(cs)
  {
    if cs == [] then []
    else BadArguments(cs[..|cs| - 1]) + (if cs[|cs| - 1].arg > 5 then [BadArgument(cs[|cs| - 1].arg)] else [])
  }

  method Validate(cs: ConditionSet) returns (problems: seq<Problem>)
    ensures problems == BadArguments(cs)
  {
    problems := [];
    for k := 0 to |cs|
      invariant problems == BadArguments(cs[..k])
    {
      assert cs[..k + 1][..k] == cs[..k];
      if cs[k].arg > 5 {
        problems := problems + [BadArgument(cs[k].arg)];
      }
    }
    assert cs[..|cs|] == cs;
  }

  predicate Has(es: seq<Entry>, num: uint32) { exists k :: 0 <= k < |es| && es[k].num == num }

  /** Searches the list, which keeps the order the user gave. */
  method GetSyscall(es: seq<Entry>, num: uint32) returns (r: Option<nat>)
    ensures r.None? ==> !Has(es, num)
    ensures r.Some? ==> r.value < |es| && es[r.value].num == num && !Has(es[..r.value], num)
  {
    for k := 0 to |es|
      invariant !Has(es[..k], num)
    {
      if es[k].num == num {
        return Some(k);
      }
    }
    return None;
  }

  datatype Merged = Merged(entries: seq<Entry>, problems: seq<Problem>)

  function AddName(m: Merged, arch: ArchInfo, name: string): Merged {
    if name !in arch.syscallNames then m.(problems := m.problems + [UnknownSyscall(name)])
    else if Has(m.entries, Number(arch, name)) then m.(problems := m.problems + [DuplicateSyscall(name)])
    else m.(entries := m.entries + [Entry(Number(arch, name), [])])
  }

  function MergeNames(arch: ArchInfo, names: seq<string>): Merged {
    if names == [] then Merged([], [])
    else AddName(MergeNames(arch, names[..|names| - 1]), arch, names[|names| - 1])
  }

  function IndexOf(es: seq<Entry>, num: uint32): (k: nat)
    requires Has(es, num)
    ensures k < |es| && es[k].num == num && !Has(es[..k], num)
  {
    if es[0].num == num then 0
    else
      HasTail(es, num);
      var k := 1 + IndexOf(es[1..], num);
      NotBefore(es, num, k);
      k
  }

  lemma HasTail(es: seq<Entry>, num: uint32)
    requires Has(es, num) && es[0].num != num
    ensures Has(es[1..], num)
  {
    var k :| 0 <= k < |es| && es[k].num == num;
    assert es[1..][k - 1].num == num;
  }

  lemma NotBefore(es: seq<Entry>, num: uint32, k: nat)
    requires 1 <= k <= |es| && es[0].num != num && !Has(es[1..][..k - 1], num)
    ensures !Has(es[..k], num)
  {
    forall i | 0 <= i < k ensures es[..k][i].num != num {
      if i > 0 {
        assert es[1..][..k - 1][i - 1] == es[i];
      }
    }
  }

  function AddConditional(m: Merged, arch: ArchInfo, nc: NameWithConditions): Merged {
    if nc.name !in arch.syscallNames then m.(problems := m.problems + [UnknownSyscall(nc.name)])
    else if BadArguments(nc.conditions) != [] then m.(problems := m.problems + BadArguments(nc.conditions))
    else
      var num := Number(arch, nc.name);
      if !Has(m.entries, num) then m.(entries := m.entries + [Entry(num, [nc.conditions])])
      else
        var k := IndexOf(m.entries, num);
        if m.entries[k].conditions == [] then m.(problems := m.problems + [ConditionalAndUnconditional(nc.name)])
        else m.(entries := m.entries[k := Entry(num, m.entries[k].conditions + [nc.conditions])])
  }

  function MergeConditionals(arch: ArchInfo, names: seq<string>, ncs: seq<NameWithConditions>): Merged {
    if ncs == [] then MergeNames(arch, names)
    else AddConditional(MergeConditionals(arch, names, ncs[..|ncs| - 1]), arch, ncs[|ncs| - 1])
  }

  function MergeGroup(g: SyscallGroup, arch: ArchInfo): Merged {
    MergeConditionals(arch, g.names, g.withConditions)
  }

  method ToSyscallsWithConditions(g: SyscallGroup, arch: ArchInfo) returns (r: Result<seq<Entry>, seq<Problem>>)
    ensures var m := MergeGroup(g, arch);
            r == if m.problems == [] then Ok(m.entries) else Err(m.problems)
  {
    var syscalls: seq<Entry>, problems: seq<Problem> := [], [];
    assert MergeNames(arch, g.names[..0]) == Merged([], []);
    assert MergeConditionals(arch, g.names, g.withConditions[..0]) == MergeNames(arch, g.names);
    hide MergeNames, MergeConditionals, AddConditional, BadArguments;
    for k := 0 to |g.names|
      invariant Merged(syscalls, problems) == MergeNames(arch, g.names[..k])
    {
      NameStep(arch, g.names, k);
      var name := g.names[k];
      if name in arch.syscallNames {
        var syscall := BitOr(arch.syscallNames[name], arch.seccompMask) % TWO_TO_32;
        var found := GetSyscall(syscalls, syscall);
        if found.None? {
          syscalls := syscalls + [Entry(syscall, [])];
        } else {
          problems := problems + [DuplicateSyscall(name)];
        }
      } else {
        problems := problems + [UnknownSyscall(name)];
      }
    }
    assert g.names[..|g.names|] == g.names;
    for k := 0 to |g.withConditions|
      invariant Merged(syscalls, problems) == MergeConditionals(arch, g.names, g.withConditions[..k])
    {
      ConditionalStep(arch, g.names, g.withConditions, k);
      var nc := g.withConditions[k];
      ghost var merged := Merged(syscalls, problems);
      AddUnknown(merged, arch, nc);
      if nc.name in arch.syscallNames {
        var syscall := BitOr(arch.syscallNames[nc.name], arch.seccompMask) % TWO_TO_32;
        var check := GetSyscall(syscalls, syscall);
        var invalidArguments := Validate(nc.conditions);
        AddKnown(merged, arch, nc, check);
        if |invalidArguments| > 0 {
          problems := problems + invalidArguments;
          continue;
        }
        if check.None? {
          syscalls := syscalls + [Entry(syscall, [nc.conditions])];
        } else {
          var entry := syscalls[check.value];
          if |entry.conditions| == 0 {
            problems := problems + [ConditionalAndUnconditional(nc.name)];
          } else {
            syscalls := syscalls[check.value := entry.(conditions := entry.conditions + [nc.conditions])];
          }
        }
      } else {
        problems := problems + [UnknownSyscall(nc.name)];
      }
    }
    assert g.withConditions[..|g.withConditions|] == g.withConditions;
    if |problems| > 0 {
      return Err(problems);
    }
    return Ok(syscalls);
  }

  lemma NameStep(arch: ArchInfo, names: seq<string>, k: nat)
    requires k < |names|
    ensures MergeNames(arch, names[..k + 1]) == AddName(MergeNames(arch, names[..k]), arch, names[k])
  {
    assert names[..k + 1][..k] == names[..k];
  }

  lemma ConditionalStep(arch: ArchInfo, names: seq<string>, ncs: seq<NameWithConditions>, k: nat)
    requires k < |ncs|
    ensures MergeConditionals(arch, names, ncs[..k + 1])
            == AddConditional(MergeConditionals(arch, names, ncs[..k]), arch, ncs[k])
  {
    hide AddConditional;
    assert ncs[..k + 1][..k] == ncs[..k];
  }

  lemma AddUnknown(m: Merged, arch: ArchInfo, nc: NameWithConditions)
    ensures nc.name !in arch.syscallNames ==>
              AddConditional(m, arch, nc) == m.(problems := m.problems + [UnknownSyscall(nc.name)])
  {}

  /** Any result of the search does for a known name. */
  lemma AddKnown(m: Merged, arch: ArchInfo, nc: NameWithConditions, found: Option<nat>)
    requires nc.name in arch.syscallNames
    requires var num := Number(arch, nc.name);
             if found.None? then !Has(m.entries, num)
             else found.value < |m.entries| && m.entries[found.value].num == num && !Has(m.entries[..found.value], num)
    ensures AddConditional(m, arch, nc) ==
            var bad, num := BadArguments(nc.conditions), Number(arch, nc.name);
            if bad != [] then m.(problems := m.problems + bad)
            else if found.None? then m.(entries := m.entries + [Entry(num, [nc.conditions])])
            else
              var e := m.entries[found.value];
              if e.conditions == [] then m.(problems := m.problems + [ConditionalAndUnconditional(nc.name)])
              else m.(entries := m.entries[found.value := e.(conditions := e.conditions + [nc.conditions])])
  {
    hide IndexOf, Has;
    if found.Some? {
      FirstIsUnique(m.entries, Number(arch, nc.name), found.value);
    }
  }

  lemma FirstIsUnique(es: seq<Entry>, num: uint32, k: nat)
    requires k < |es| && es[k].num == num && !Has(es[..k], num)
    ensures Has(es, num) && IndexOf(es, num) == k
  {
    HasBefore(es, num, k, |es|);
    assert es[..|es|] == es;
    var i := IndexOf(es, num);
    if i < k {
      HasBefore(es, num, i, k);
    } else if k < i {
      HasBefore(es, num, k, i);
    }
  }

  lemma HasBefore(es: seq<Entry>, num: uint32, i: nat, k: nat)
    requires i < k <= |es| && es[i].num == num
    ensures Has(es[..k], num)
  {
    assert es[..k][i].num == num;
  }

  // ---- when merging fails ----

  predicate NameBad(arch: ArchInfo, names: seq<string>, k: nat)
    requires k < |names|
  {
    || names[k] !in arch.syscallNames
    || (exists i :: 0 <= i < k && names[i] in arch.syscallNames && Number(arch, names[i]) == Number(arch, names[k]))
  }

  predicate ConditionalBad(arch: ArchInfo, names: seq<string>, nc: NameWithConditions) {
    nc.name !in arch.syscallNames || !ValidSet(nc.conditions) || Plain(arch, names, Number(arch, nc.name))
  }

  predicate Distinct(es: seq<Entry>) { forall i, j :: 0 <= i < j < |es| ==> es[i].num != es[j].num }

  lemma PlainStep(arch: ArchInfo, names: seq<string>, num: uint32)
    requires names != []
    ensures var k := |names| - 1;
            Plain(arch, names, num) <==>
            Plain(arch, names[..k], num) || (names[k] in arch.syscallNames && Number(arch, names[k]) == num)
  {
    var k := |names| - 1;
    if Plain(arch, names, num) {
      var i :| 0 <= i < |names| && names[i] in arch.syscallNames && Number(arch, names[i]) == num;
      if i < k {
        assert names[..k][i] == names[i];
      }
    }
    if Plain(arch, names[..k], num) {
      var i :| 0 <= i < k && names[..k][i] in arch.syscallNames && Number(arch, names[..k][i]) == num;
      assert names[i] == names[..k][i];
    }
  }

  lemma HasAppended(es: seq<Entry>, e: Entry, num: uint32)
    ensures Has(es + [e], num) <==> Has(es, num) || e.num == num
  {
    if Has(es, num) {
      var k :| 0 <= k < |es| && es[k].num == num;
      assert (es + [e])[k].num == num;
    }
    assert (es + [e])[|es|] == e;
  }

  /** The plain names: one entry for every known number, and a problem for every unknown or repeated one. */
  lemma {:induction false} NamesMerged(arch: ArchInfo, names: seq<string>)
    ensures var m := MergeNames(arch, names);
            && (m.problems == [] <==> forall k :: 0 <= k < |names| ==> !NameBad(arch, names, k))
            && (forall num :: Has(m.entries, num) <==> Plain(arch, names, num))
            && (forall k :: 0 <= k < |m.entries| ==> m.entries[k].conditions == [])
            && Distinct(m.entries)
  {
    if names != [] {
      var k, init := |names| - 1, names[..|names| - 1];
      NamesMerged(arch, init);
      var m := MergeNames(arch, init);
      forall i | 0 <= i < k ensures NameBad(arch, names, i) <==> NameBad(arch, init, i) {
        BadBefore(arch, names, i);
      }
      forall num ensures Has(MergeNames(arch, names).entries, num) <==> Plain(arch, names, num) {
        PlainStep(arch, names, num);
        if names[k] in arch.syscallNames {
          HasAppended(m.entries, Entry(Number(arch, names[k]), []), num);
        }
      }
      LastBad(arch, names);
    }
  }

  lemma BadBefore(arch: ArchInfo, names: seq<string>, i: nat)
    requires i < |names| - 1
    ensures NameBad(arch, names, i) <==> NameBad(arch, names[..|names| - 1], i)
  {
    var init := names[..|names| - 1];
    assert forall j :: 0 <= j <= i ==> names[j] == init[j];
  }

  lemma LastBad(arch: ArchInfo, names: seq<string>)
    requires names != []
    ensures var k := |names| - 1;
            NameBad(arch, names, k) <==>
            names[k] !in arch.syscallNames || Plain(arch, names[..k], Number(arch, names[k]))
  {
    var k := |names| - 1;
    assert forall j :: 0 <= j < k ==> names[j] == names[..k][j];
  }

  predicate MergedWell(arch: ArchInfo, names: seq<string>, m: Merged) {
    && Distinct(m.entries)
    && (forall k :: 0 <= k < |m.entries| ==> (m.entries[k].conditions == [] <==> Plain(arch, names, m.entries[k].num)))
    && (forall k :: 0 <= k < |names| && names[k] in arch.syscallNames ==> Has(m.entries, Number(arch, names[k])))
  }

  lemma AddKeepsWell(arch: ArchInfo, names: seq<string>, m: Merged, nc: NameWithConditions)
    requires MergedWell(arch, names, m)
    ensures var n := AddConditional(m, arch, nc);
            MergedWell(arch, names, n) && (n.problems == [] <==> m.problems == [] && !ConditionalBad(arch, names, nc))
  {
    var n := AddConditional(m, arch, nc);
    if !(nc.name !in arch.syscallNames || !ValidSet(nc.conditions)) {
      var num := Number(arch, nc.name);
      if Plain(arch, names, num) {
        var i :| 0 <= i < |names| && names[i] in arch.syscallNames && Number(arch, names[i]) == num;
        assert Has(m.entries, num);
      }
      forall k | 0 <= k < |names| && names[k] in arch.syscallNames ensures Has(n.entries, Number(arch, names[k])) {
        var i :| 0 <= i < |m.entries| && m.entries[i].num == Number(arch, names[k]);
        assert n.entries[i].num == Number(arch, names[k]);
      }
    }
  }

  lemma {:induction false} ConditionalsMerged(arch: ArchInfo, names: seq<string>, ncs: seq<NameWithConditions>)
    ensures var m := MergeConditionals(arch, names, ncs);
            MergedWell(arch, names, m)
            && (m.problems == [] <==>
                (MergeNames(arch, names).problems == []
                 && forall k :: 0 <= k < |ncs| ==> !ConditionalBad(arch, names, ncs[k])))
  {
    hide MergedWell, ConditionalBad, AddConditional, MergeNames;
    if ncs == [] {
      NamesAreWell(arch, names);
    } else {
      var k := |ncs| - 1;
      ConditionalsMerged(arch, names, ncs[..k]);
      AddKeepsWell(arch, names, MergeConditionals(arch, names, ncs[..k]), ncs[k]);
      assert forall i :: 0 <= i < k ==> ncs[..k][i] == ncs[i];
    }
  }

  lemma NamesAreWell(arch: ArchInfo, names: seq<string>)
    ensures MergedWell(arch, names, MergeNames(arch, names))
  {
    hide MergeNames;
    NamesMerged(arch, names);
    var m := MergeNames(arch, names);
    forall k | 0 <= k < |names| && names[k] in arch.syscallNames ensures Has(m.entries, Number(arch, names[k])) {
      assert Plain(arch, names, Number(arch, names[k]));
    }
  }

  /** Merging fails exactly when a name is unknown, a plain number repeats, a known conditional entry uses an argument
      above 5, or a number is both plain and conditional. */
  lemma MergeFailsIff(g: SyscallGroup, arch: ArchInfo)
    ensures MergeGroup(g, arch).problems != [] <==>
            || (exists k :: 0 <= k < |g.names| && NameBad(arch, g.names, k))
            || (exists k :: 0 <= k < |g.withConditions| && ConditionalBad(arch, g.names, g.withConditions[k]))
  {
    NamesMerged(arch, g.names);
    ConditionalsMerged(arch, g.names, g.withConditions);
  }

  // ---- what a successful merge yields ----

  /** The numbers of a list, each at its first occurrence. */
  function FirstOccurrences(nums: seq<uint32>): seq<uint32> {
    if nums == [] then []
    else
      var k := |nums| - 1;
      FirstOccurrences(nums[..k]) + (if nums[k] in nums[..k] then [] else [nums[k]])
  }

  predicate AllKnown(arch: ArchInfo, ncs: seq<NameWithConditions>) {
    forall k :: 0 <= k < |ncs| ==> ncs[k].name in arch.syscallNames
  }

  function NumbersOf(arch: ArchInfo, ncs: seq<NameWithConditions>): seq<uint32>
    requires AllKnown(arch, ncs)
  {
    seq(|ncs|, k requires 0 <= k < |ncs| => Number(arch, ncs[k].name))
  }

  /** All condition sets given for a number, in the order given. */
  function SetsFor(arch: ArchInfo, ncs: seq<NameWithConditions>, num: uint32): seq<ConditionSet> {
    if ncs == [] then []
    else
      var k := |ncs| - 1;
      SetsFor(arch, ncs[..k], num) + (if NamedWith(arch, ncs[k], num) then [ncs[k].conditions] else [])
  }

  predicate AllNamed(arch: ArchInfo, names: seq<string>) {
    forall k :: 0 <= k < |names| ==> names[k] in arch.syscallNames
  }

  function PlainEntries(arch: ArchInfo, names: seq<string>): seq<Entry>
    requires AllNamed(arch, names)
  {
    seq(|names|, k requires 0 <= k < |names| => Entry(Number(arch, names[k]), []))
  }

  function ConditionalEntries(arch: ArchInfo, ncs: seq<NameWithConditions>): (r: seq<Entry>)
    requires AllKnown(arch, ncs)
  {
    var nums := FirstOccurrences(NumbersOf(arch, ncs));
    seq(|nums|, k requires 0 <= k < |nums| => Entry(nums[k], SetsFor(arch, ncs, nums[k])))
  }

  lemma {:induction false} NamesForm(arch: ArchInfo, names: seq<string>)
    requires MergeNames(arch, names).problems == []
    ensures AllNamed(arch, names)
    ensures MergeNames(arch, names).entries == PlainEntries(arch, names)
  {
    if names != [] {
      NamesForm(arch, names[..|names| - 1]);
    }
  }

  lemma {:induction false} FirstOccurrencesSame(nums: seq<uint32>)
    ensures forall x :: x in FirstOccurrences(nums) <==> x in nums
    ensures forall i, j :: 0 <= i < j < |FirstOccurrences(nums)| ==> FirstOccurrences(nums)[i] != FirstOccurrences(nums)[j]
  {
    if nums != [] {
      var k := |nums| - 1;
      FirstOccurrencesSame(nums[..k]);
      assert nums == nums[..k] + [nums[k]];
    }
  }

  lemma NumbersStep(arch: ArchInfo, ncs: seq<NameWithConditions>)
    requires AllKnown(arch, ncs) && ncs != []
    ensures var k := |ncs| - 1;
            AllKnown(arch, ncs[..k]) && NumbersOf(arch, ncs)[..k] == NumbersOf(arch, ncs[..k])
            && NumbersOf(arch, ncs)[k] == Number(arch, ncs[k].name) && |NumbersOf(arch, ncs)| == k + 1
  {}

  /** The merged list: plain names first, in order, then the conditional numbers in order of first occurrence, each with
      all its condition sets. */
  lemma {:induction false} MergedForm(arch: ArchInfo, names: seq<string>, ncs: seq<NameWithConditions>)
    requires MergeConditionals(arch, names, ncs).problems == []
    ensures AllNamed(arch, names)
    ensures AllKnown(arch, ncs)
    ensures MergeConditionals(arch, names, ncs).entries == PlainEntries(arch, names) + ConditionalEntries(arch, ncs)
  {
    hide PlainEntries, ConditionalEntries, MergedWell, ConditionalBad, AddConditional, AllKnown, AllNamed, MergeNames;
    if ncs == [] {
      NamesForm(arch, names);
      NothingConditional(arch, names);
    } else {
      var k := |ncs| - 1;
      var init, nc := ncs[..k], ncs[k];
      var m := MergeConditionals(arch, names, init);
      ConditionalsMerged(arch, names, init);
      AddKeepsWell(arch, names, m, nc);
      MergedForm(arch, names, init);
      FormStep(arch, names, m, init, nc);
      assert init + [nc] == ncs;
    }
  }

  /** One more conditional entry either joins the sets of its number or opens a new list entry. */
  lemma ConditionalEntriesStep(arch: ArchInfo, ncs: seq<NameWithConditions>) returns (i: nat)
    requires AllKnown(arch, ncs) && ncs != []
    ensures AllKnown(arch, ncs[..|ncs| - 1])
    ensures var nc, cs := ncs[|ncs| - 1], ConditionalEntries(arch, ncs[..|ncs| - 1]);
            var num := Number(arch, nc.name);
            if i < |cs| then
              cs[i].num == num && ConditionalEntries(arch, ncs) == cs[i := Entry(num, cs[i].conditions + [nc.conditions])]
            else
              (forall k :: 0 <= k < |cs| ==> cs[k].num != num)
              && ConditionalEntries(arch, ncs) == cs + [Entry(num, [nc.conditions])]
  {
    NumbersStep(arch, ncs);
    var k := |ncs| - 1;
    var init, nc := ncs[..k], ncs[k];
    var num := Number(arch, nc.name);
    var before := NumbersOf(arch, init);
    FirstOccurrencesSame(before);
    var firsts := FirstOccurrences(before);
    var cs, cs' := ConditionalEntries(arch, init), ConditionalEntries(arch, ncs);
    assert FirstOccurrences(NumbersOf(arch, ncs)) == firsts + if num in before then [] else [num];
    assert forall i :: 0 <= i < |firsts| && firsts[i] != num ==> cs'[i] == cs[i];
    if num in before {
      i :| 0 <= i < |firsts| && firsts[i] == num;
      assert cs' == cs[i := Entry(num, cs[i].conditions + [nc.conditions])];
    } else {
      i := |cs|;
      UnnamedHasNoSets(arch, init, num);
      assert SetsFor(arch, ncs, num) == [nc.conditions];
      assert cs' == cs + [Entry(num, [nc.conditions])];
    }
  }

  lemma NothingConditional(arch: ArchInfo, names: seq<string>)
    requires AllNamed(arch, names)
    ensures AllKnown(arch, []) && PlainEntries(arch, names) == PlainEntries(arch, names) + ConditionalEntries(arch, [])
  {}

  lemma ConditionalEntriesAppend(arch: ArchInfo, init: seq<NameWithConditions>, nc: NameWithConditions) returns (i: nat)
    requires AllKnown(arch, init) && nc.name in arch.syscallNames
    ensures AllKnown(arch, init + [nc])
    ensures var cs, num := ConditionalEntries(arch, init), Number(arch, nc.name);
            if i < |cs| then
              cs[i].num == num
              && ConditionalEntries(arch, init + [nc]) == cs[i := Entry(num, cs[i].conditions + [nc.conditions])]
            else
              (forall k :: 0 <= k < |cs| ==> cs[k].num != num)
              && ConditionalEntries(arch, init + [nc]) == cs + [Entry(num, [nc.conditions])]
  {
    hide ConditionalEntries, Number;
    var ncs := init + [nc];
    assert ncs[..|ncs| - 1] == init && ncs[|ncs| - 1] == nc;
    KnownStep(arch, ncs);
    i := ConditionalEntriesStep(arch, ncs);
  }

  lemma FormStep(arch: ArchInfo, names: seq<string>, m: Merged, init: seq<NameWithConditions>, nc: NameWithConditions)
    requires AllNamed(arch, names) && AllKnown(arch, init) && !ConditionalBad(arch, names, nc)
    requires m.entries == PlainEntries(arch, names) + ConditionalEntries(arch, init) && MergedWell(arch, names, m)
    ensures AllKnown(arch, init + [nc])
    ensures AddConditional(m, arch, nc).entries == PlainEntries(arch, names) + ConditionalEntries(arch, init + [nc])
  {
    hide ConditionalEntries, Plain, AddConditional, MergedWell, PlainEntries, Number, AllKnown, ValidSet, AllNamed,
      ConditionalBad, Has;
    NotBad(arch, names, nc);
    var num := Number(arch, nc.name);
    var i := ConditionalEntriesAppend(arch, init, nc);
    var ps, cs := PlainEntries(arch, names), ConditionalEntries(arch, init);
    if i < |cs| {
      assert m.entries[|ps| + i] == cs[i];
      JoinsSets(m, arch, names, nc, |ps| + i);
      UpdateInTail(ps, cs, i, Entry(num, cs[i].conditions + [nc.conditions]));
    } else {
      NotHas(arch, names, ps, cs, num);
      OpensEntry(m, arch, nc);
      AppendToTail(ps, cs, Entry(num, [nc.conditions]));
    }
  }

  lemma UpdateInTail(a: seq<Entry>, b: seq<Entry>, i: nat, e: Entry)
    requires i < |b|
    ensures (a + b)[|a| + i := e] == a + b[i := e]
  {}

  lemma AppendToTail(a: seq<Entry>, b: seq<Entry>, e: Entry)
    ensures a + b + [e] == a + (b + [e])
  {}

  lemma NotBad(arch: ArchInfo, names: seq<string>, nc: NameWithConditions)
    requires !ConditionalBad(arch, names, nc)
    ensures nc.name in arch.syscallNames && ValidSet(nc.conditions) && !Plain(arch, names, Number(arch, nc.name))
  {}

  lemma KnownStep(arch: ArchInfo, ncs: seq<NameWithConditions>)
    requires ncs != [] && AllKnown(arch, ncs[..|ncs| - 1]) && ncs[|ncs| - 1].name in arch.syscallNames
    ensures AllKnown(arch, ncs)
  {
    forall i | 0 <= i < |ncs| ensures ncs[i].name in arch.syscallNames {
      if i < |ncs| - 1 {
        assert ncs[..|ncs| - 1][i].name in arch.syscallNames;
      }
    }
  }

  lemma JoinsSets(m: Merged, arch: ArchInfo, names: seq<string>, nc: NameWithConditions, k: nat)
    requires MergedWell(arch, names, m) && !ConditionalBad(arch, names, nc)
    requires k < |m.entries| && m.entries[k].num == Number(arch, nc.name)
    ensures AddConditional(m, arch, nc).entries
            == m.entries[k := Entry(m.entries[k].num, m.entries[k].conditions + [nc.conditions])]
  {
    IndexIs(m.entries, m.entries[k].num, k);
  }

  lemma OpensEntry(m: Merged, arch: ArchInfo, nc: NameWithConditions)
    requires nc.name in arch.syscallNames && ValidSet(nc.conditions) && !Has(m.entries, Number(arch, nc.name))
    ensures AddConditional(m, arch, nc).entries == m.entries + [Entry(Number(arch, nc.name), [nc.conditions])]
  {}

  lemma IndexIs(es: seq<Entry>, num: uint32, k: nat)
    requires Distinct(es) && k < |es| && es[k].num == num
    ensures Has(es, num) && IndexOf(es, num) == k
  {}

  lemma NotHas(arch: ArchInfo, names: seq<string>, ps: seq<Entry>, cs: seq<Entry>, num: uint32)
    requires AllNamed(arch, names) && ps == PlainEntries(arch, names)
    requires !Plain(arch, names, num) && forall k :: 0 <= k < |cs| ==> cs[k].num != num
    ensures !Has(ps + cs, num)
  {}

  lemma {:induction false} UnnamedHasNoSets(arch: ArchInfo, ncs: seq<NameWithConditions>, num: uint32)
    requires AllKnown(arch, ncs) && num !in NumbersOf(arch, ncs)
    ensures SetsFor(arch, ncs, num) == []
  {
    if ncs != [] {
      NumbersStep(arch, ncs);
      var k := |ncs| - 1;
      assert NumbersOf(arch, ncs)[k] in NumbersOf(arch, ncs);
      assert forall x :: x in NumbersOf(arch, ncs[..k]) ==> x in NumbersOf(arch, ncs);
      UnnamedHasNoSets(arch, ncs[..k], num);
    }
  }

  lemma {:induction false} SetsForMeans(arch: ArchInfo, ncs: seq<NameWithConditions>, num: uint32, s: ConditionSet)
    ensures s in SetsFor(arch, ncs, num) <==>
            exists k :: 0 <= k < |ncs| && NamedWith(arch, ncs[k], num) && ncs[k].conditions == s
  {
    if ncs != [] {
      var k := |ncs| - 1;
      SetsForMeans(arch, ncs[..k], num, s);
      if i :| 0 <= i < |ncs| && NamedWith(arch, ncs[i], num) && ncs[i].conditions == s {
        if i < k {
          assert ncs[..k][i] == ncs[i];
        }
      }
      if i :| 0 <= i < k && NamedWith(arch, ncs[..k][i], num) && ncs[..k][i].conditions == s {
        assert NamedWith(arch, ncs[i], num) && ncs[i].conditions == s;
      }
    }
  }

  lemma PlainEntryMatches(g: SyscallGroup, arch: ArchInfo, nr: uint32, d: SeccompData)
    requires AllNamed(arch, g.names)
    ensures ValidEntries(PlainEntries(arch, g.names))
    ensures ListMatches(PlainEntries(arch, g.names), nr, d) <==> Plain(arch, g.names, nr)
  {
    var ps := PlainEntries(arch, g.names);
    if k :| 0 <= k < |ps| && EntryMatches(ps[k], nr, d) {
      assert g.names[k] in arch.syscallNames && Number(arch, g.names[k]) == nr;
    }
    if k :| 0 <= k < |g.names| && g.names[k] in arch.syscallNames && Number(arch, g.names[k]) == nr {
      assert EntryMatches(ps[k], nr, d);
    }
  }

  predicate SomeConditional(arch: ArchInfo, ncs: seq<NameWithConditions>, nr: uint32, d: SeccompData) {
    exists k :: 0 <= k < |ncs| && NamedWith(arch, ncs[k], nr) && ValidSet(ncs[k].conditions) && SetHolds(ncs[k].conditions, d)
  }

  lemma ConditionalEntriesValid(arch: ArchInfo, ncs: seq<NameWithConditions>)
    requires AllKnown(arch, ncs) && forall k :: 0 <= k < |ncs| ==> ValidSet(ncs[k].conditions)
    ensures ValidEntries(ConditionalEntries(arch, ncs))
    ensures forall k :: 0 <= k < |ConditionalEntries(arch, ncs)| ==> ConditionalEntries(arch, ncs)[k].conditions != []
  {
    var cs := ConditionalEntries(arch, ncs);
    FirstOccurrencesSame(NumbersOf(arch, ncs));
    forall k | 0 <= k < |cs| ensures ValidSets(cs[k].conditions) && cs[k].conditions != [] {
      var num := cs[k].num;
      forall i | 0 <= i < |cs[k].conditions| ensures ValidSet(cs[k].conditions[i]) {
        SetsForMeans(arch, ncs, num, cs[k].conditions[i]);
      }
      assert num in NumbersOf(arch, ncs);
      var i :| 0 <= i < |ncs| && Number(arch, ncs[i].name) == num;
      assert NamedWith(arch, ncs[i], num);
      SetsForMeans(arch, ncs, num, ncs[i].conditions);
    }
  }

  lemma ConditionalEntryMatches(arch: ArchInfo, ncs: seq<NameWithConditions>, nr: uint32, d: SeccompData)
    requires AllKnown(arch, ncs) && forall k :: 0 <= k < |ncs| ==> ValidSet(ncs[k].conditions)
    ensures ValidEntries(ConditionalEntries(arch, ncs))
    ensures ListMatches(ConditionalEntries(arch, ncs), nr, d) <==> SomeConditional(arch, ncs, nr, d)
  {
    ConditionalEntriesValid(arch, ncs);
    var cs, nums := ConditionalEntries(arch, ncs), NumbersOf(arch, ncs);
    FirstOccurrencesSame(nums);
    if k :| 0 <= k < |cs| && EntryMatches(cs[k], nr, d) {
      var i :| 0 <= i < |cs[k].conditions| && SetHolds(cs[k].conditions[i], d);
      SetsForMeans(arch, ncs, nr, cs[k].conditions[i]);
    }
    if i :| 0 <= i < |ncs| && NamedWith(arch, ncs[i], nr) && ValidSet(ncs[i].conditions) && SetHolds(ncs[i].conditions, d) {
      assert nums[i] == nr;
      var firsts := FirstOccurrences(nums);
      assert nr in firsts;
      var k :| 0 <= k < |firsts| && firsts[k] == nr;
      SetsForMeans(arch, ncs, nr, ncs[i].conditions);
      var j :| 0 <= j < |cs[k].conditions| && cs[k].conditions[j] == ncs[i].conditions;
      assert EntryMatches(cs[k], nr, d);
    }
  }

  lemma ListMatchesConcat(a: seq<Entry>, b: seq<Entry>, nr: uint32, d: SeccompData)
    requires ValidEntries(a) && ValidEntries(b)
    ensures ValidEntries(a + b)
    ensures ListMatches(a + b, nr, d) <==> ListMatches(a, nr, d) || ListMatches(b, nr, d)
  {
    assert ValidEntries(a + b);
    if k :| 0 <= k < |a| && EntryMatches(a[k], nr, d) {
      assert EntryMatches((a + b)[k], nr, d);
    }
    if k :| 0 <= k < |b| && EntryMatches(b[k], nr, d) {
      assert EntryMatches((a + b)[|a| + k], nr, d);
    }
  }

  /** A successful merge gives distinct numbers, in the order above, and matches a call exactly when the group does. */
  lemma MergeKeepsMeaning(g: SyscallGroup, arch: ArchInfo, nr: uint32, d: SeccompData)
    requires MergeGroup(g, arch).problems == []
    ensures var es := MergeGroup(g, arch).entries;
            && ValidEntries(es) && Distinct(es)
            && (ListMatches(es, nr, d) <==> GroupMatches(g, arch, nr, d))
  {
    var ncs := g.withConditions;
    ConditionalsMerged(arch, g.names, ncs);
    MergedForm(arch, g.names, ncs);
    assert forall k :: 0 <= k < |ncs| ==> !ConditionalBad(arch, g.names, ncs[k]);
    PlainEntryMatches(g, arch, nr, d);
    ConditionalEntryMatches(arch, ncs, nr, d);
    ListMatchesConcat(PlainEntries(arch, g.names), ConditionalEntries(arch, ncs), nr, d);
  }

  // ---- alternatives for one name ----

  /** Alternative condition sets for one name, as a policy gives them. */
  function Alternatives(name: string, sets: seq<ConditionSet>): (r: seq<NameWithConditions>)
    ensures |r| == |sets|
  {
    seq(|sets|, k requires 0 <= k < |sets| => NameWithConditions(name, sets[k]))
  }

  /** Alternatives for a name that is not plain merge into one entry behind the plain ones. */
  lemma {:induction false} AlternativesMerge(arch: ArchInfo, names: seq<string>, name: string, sets: seq<ConditionSet>)
    requires MergeNames(arch, names).problems == []
    requires name in arch.syscallNames && !Plain(arch, names, Number(arch, name)) && ValidSets(sets)
    ensures MergeConditionals(arch, names, Alternatives(name, sets))
            == Merged(MergeNames(arch, names).entries + (if sets == [] then [] else [Entry(Number(arch, name), sets)]), [])
  {
    hide AddConditional, MergeNames, Number, Plain, MergedWell, ConditionalBad;
    var plain, num := MergeNames(arch, names).entries, Number(arch, name);
    if sets == [] {
      assert plain + [] == plain;
    } else {
      var n := |sets| - 1;
      var init, nc := sets[..n], NameWithConditions(name, sets[n]);
      assert Alternatives(name, sets)[..n] == Alternatives(name, init) && Alternatives(name, sets)[n] == nc;
      AlternativesMerge(arch, names, name, init);
      var m := MergeConditionals(arch, names, Alternatives(name, init));
      ConditionalsMerged(arch, names, Alternatives(name, init));
      NotConditionalBad(arch, names, nc);
      AddKeepsWell(arch, names, m, nc);
      if init == [] {
        NamesMerged(arch, names);
        assert !Has(m.entries, num);
        OpensEntry(m, arch, nc);
        assert sets == [sets[n]];
      } else {
        var k := |plain|;
        assert m.entries[k] == Entry(num, init);
        JoinsSets(m, arch, names, nc, k);
        assert init + [sets[n]] == sets;
        assert m.entries[k := Entry(num, sets)] == plain + [Entry(num, sets)];
      }
    }
  }

  lemma NotConditionalBad(arch: ArchInfo, names: seq<string>, nc: NameWithConditions)
    requires nc.name in arch.syscallNames && ValidSet(nc.conditions) && !Plain(arch, names, Number(arch, nc.name))
    ensures !ConditionalBad(arch, names, nc)
  {}
}
