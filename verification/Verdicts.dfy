/** What a filter returns, in the numbers the kernel sees. */
module Verdicts {
  import opened Words
  import opened Bpf
  import opened Policies
  import opened Compiler
  import opened Correctness
  import opened Plain
  import opened Numbers

  /** Every action is returned as it is, but for a bare errno, which carries EPERM. */
  lemma ReturnIs(action: uint32)
    ensures ReturnValue(action) == if action == 0x5_0000 then 0x5_0001 else action
  {}

  /** Group `k` is the first that matches, or there is none and `k` is their number. */
  predicate FirstMatching(groups: seq<SyscallGroup>, arch: ArchInfo, d: SeccompData, k: nat) {
    && k <= |groups|
    && (k < |groups| ==> GroupMatches(groups[k], arch, d.nr, d))
    && (forall i :: 0 <= i < k ==> !GroupMatches(groups[i], arch, d.nr, d))
  }

  lemma {:induction false} FirstMatchAt(groups: seq<SyscallGroup>, default: uint32, arch: ArchInfo, d: SeccompData, k: nat)
    requires FirstMatching(groups, arch, d, k)
    ensures FirstMatch(groups, default, arch, d) == if k < |groups| then groups[k].action else default
  {
    hide GroupMatches;
    if k > 0 {
      assert !GroupMatches(groups[0], arch, d.nr, d);
      assert forall i :: 0 <= i < |groups| - 1 ==> groups[1..][i] == groups[i + 1];
      FirstMatchAt(groups[1..], default, arch, d, k - 1);
    }
  }

  /** On a record of the filter's architecture, below the x32 numbers on x86_64, the verdict is the action of the first group
      that matches, or else the default: itself, but for a bare errno. */
  lemma MatchReturns(groups: seq<SyscallGroup>, default: uint32, arch: ArchInfo, o: Order, acc: uint32, d: SeccompData, k: nat)
    requires SafeGroups(groups, arch) && Fits(groups, arch) && AllUsable(Comparisons(groups, arch))
    requires Undisturbed(Comparisons(groups, arch), d.nr, d) && FirstMatching(groups, arch, d, k)
    requires d.arch == arch.id && (arch.id == 0xc000_003e ==> d.nr < 0x4000_0000)
    ensures Filter(groups, default, arch, o).Ok?
    ensures var a := if k < |groups| then groups[k].action else default;
            Run(Filter(groups, default, arch, o).value, acc, EnvOf(d, o)) == Verdict(if a == 0x5_0000 then 0x5_0001 else a)
  {
    hide SafeGroups, Fits, Comparisons, Undisturbed, Filter, Run, EnvOf, FirstMatching, FirstMatch, ReturnValue;
    FilterIsFirstMatch(groups, default, arch, o, acc, d);
    FirstMatchAt(groups, default, arch, d, k);
    ReturnIs(if k < |groups| then groups[k].action else default);
  }

  /** The same for policies of names, with nothing supposed of the record; a group of names matches when the number has the bits
      that the table and the mask give one of them. */
  lemma NamesReturn(groups: seq<SyscallGroup>, default: uint32, arch: ArchInfo, o: Order, acc: uint32, d: SeccompData, k: nat)
    requires NamesOnly(groups, arch) && Fits(groups, arch) && k <= |groups|
    requires k < |groups| ==> exists i :: 0 <= i < |groups[k].names| && Names(arch, groups[k].names[i], d.nr)
    requires forall j, i :: 0 <= j < k && 0 <= i < |groups[j].names| ==> !Names(arch, groups[j].names[i], d.nr)
    ensures Filter(groups, default, arch, o).Ok?
    ensures var a := if k < |groups| then groups[k].action else default;
            Run(Filter(groups, default, arch, o).value, acc, EnvOf(d, o))
            == if d.arch != arch.id then Verdict(if default == 0x5_0000 then 0x5_0001 else default)
               else if arch.id == 0xc000_003e && d.nr >= 0x4000_0000 then Verdict(0x5_0026)
               else Verdict(if a == 0x5_0000 then 0x5_0001 else a)
  {
    hide NamesOnly, Fits, Filter, Run, EnvOf, FirstMatch, ReturnValue, Names, GroupMatches;
    NamesOnlyCorrect(groups, default, arch, o, acc, d);
    forall j | 0 <= j < |groups|
      ensures GroupMatches(groups[j], arch, d.nr, d) <==>
              exists i :: 0 <= i < |groups[j].names| && Names(arch, groups[j].names[i], d.nr)
    {
      NamesGroup(groups, arch, j);
      GroupMatchesNumbers(groups[j], arch, d.nr, d);
    }
    FirstMatchAt(groups, default, arch, d, k);
    ReturnIs(default);
    ReturnIs(if k < |groups| then groups[k].action else default);
  }

  lemma NamesGroup(groups: seq<SyscallGroup>, arch: ArchInfo, j: nat)
    requires NamesOnly(groups, arch) && j < |groups|
    ensures groups[j].withConditions == []
  {}
}
