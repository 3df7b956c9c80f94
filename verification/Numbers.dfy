/** The number a name is compared with, bit by bit. */
module Numbers {
  import opened Words
  import opened Bpf
  import opened Policies
  import opened Merge

  /** The number that has exactly the bits below 32 that the table or the mask has. */
  ghost predicate Names(arch: ArchInfo, name: string, n: uint32) {
    && name in arch.syscallNames
    && forall i: nat :: i < 32 ==> (HasBit(n, i) <==> HasBit(arch.syscallNames[name], i) || HasBit(arch.seccompMask, i))
  }

  lemma NumberBits(arch: ArchInfo, name: string, i: nat)
    requires name in arch.syscallNames
    ensures HasBit(Number(arch, name), i)
            <==> i < 32 && (HasBit(arch.syscallNames[name], i) || HasBit(arch.seccompMask, i))
  {
    hide HasBit, BitOr;
    PowerOf32();
    LowBits(BitOr(arch.syscallNames[name], arch.seccompMask), 32, i);
    BitOrBits(arch.syscallNames[name], arch.seccompMask, i);
  }

  lemma WordBits(n: uint32, i: nat)
    requires i >= 32
    ensures !HasBit(n, i)
  {
    hide HasBit;
    PowerOf32();
    LowBits(n, 32, i);
  }

  lemma NamesIff(arch: ArchInfo, name: string, n: uint32)
    ensures Names(arch, name, n) <==> name in arch.syscallNames && Number(arch, name) == n
  {
    hide HasBit, Number;
    if name in arch.syscallNames {
      forall i: nat ensures i < 32 ==> (HasBit(Number(arch, name), i) <==>
                                        HasBit(arch.syscallNames[name], i) || HasBit(arch.seccompMask, i)) {
        NumberBits(arch, name, i);
      }
      if Names(arch, name, n) {
        forall i: nat ensures HasBit(Number(arch, name), i) <==> HasBit(n, i) {
          NumberBits(arch, name, i);
          if i >= 32 {
            WordBits(n, i);
          }
        }
        BitsDetermine(Number(arch, name), n);
      }
    }
  }

  /** Without a mask the number is the table's, if that is a word; a mask without a common bit is added to it. */
  lemma NamesPlainly(arch: ArchInfo, name: string, n: uint32)
    requires name in arch.syscallNames && !SharesBit(arch.syscallNames[name], arch.seccompMask)
    requires arch.syscallNames[name] + arch.seccompMask < 0x1_0000_0000
    ensures Names(arch, name, n) <==> n == arch.syscallNames[name] + arch.seccompMask
  {
    NamesIff(arch, name, n);
    BitOrDisjoint(arch.syscallNames[name], arch.seccompMask);
  }

  // ---- in the merged list ----

  /** A name of the group gives the entry. */
  ghost predicate NamedEntry(g: SyscallGroup, arch: ArchInfo, e: Entry) {
    || (exists k :: 0 <= k < |g.names| && Names(arch, g.names[k], e.num) && e.conditions == [])
    || (exists k :: 0 <= k < |g.withConditions| && Names(arch, g.withConditions[k].name, e.num)
          && g.withConditions[k].conditions in e.conditions)
  }

  /** The merged entries have the numbers of the names they come from, and every name has its entry. */
  lemma MergedNumbers(g: SyscallGroup, arch: ArchInfo)
    requires MergeGroup(g, arch).problems == []
    ensures var es := MergeGroup(g, arch).entries;
            && |g.names| <= |es|
            && (forall k :: 0 <= k < |g.names| ==> Names(arch, g.names[k], es[k].num) && es[k].conditions == [])
            && (forall k :: 0 <= k < |g.withConditions| ==> HasEntry(arch, g.withConditions[k], es))
            && (forall m :: 0 <= m < |es| ==> NamedEntry(g, arch, es[m]))
  {
    hide Names, MergeConditionals, Number, HasEntry, NamedEntry;
    var ncs, es := g.withConditions, MergeGroup(g, arch).entries;
    MergedForm(arch, g.names, ncs);
    forall k | 0 <= k < |g.names| ensures Names(arch, g.names[k], es[k].num) && es[k].conditions == [] {
      assert es[k] == PlainEntries(arch, g.names)[k];
      NamesIff(arch, g.names[k], es[k].num);
    }
    forall k | 0 <= k < |ncs| ensures HasEntry(arch, ncs[k], es) {
      ConditionalHas(arch, ncs, k, PlainEntries(arch, g.names));
    }
    forall m | 0 <= m < |es| ensures NamedEntry(g, arch, es[m]) {
      EntryNamed(g, arch, m);
    }
  }

  ghost predicate HasEntry(arch: ArchInfo, nc: NameWithConditions, es: seq<Entry>) {
    exists m :: 0 <= m < |es| && Names(arch, nc.name, es[m].num) && nc.conditions in es[m].conditions
  }

  lemma ConditionalHas(arch: ArchInfo, ncs: seq<NameWithConditions>, k: nat, ps: seq<Entry>)
    requires AllKnown(arch, ncs) && k < |ncs|
    ensures HasEntry(arch, ncs[k], ps + ConditionalEntries(arch, ncs))
  {
    hide Names, ConditionalEntries;
    var m := ConditionalAt(arch, ncs, k);
    assert (ps + ConditionalEntries(arch, ncs))[|ps| + m] == ConditionalEntries(arch, ncs)[m];
  }

  lemma EntryNamed(g: SyscallGroup, arch: ArchInfo, m: nat)
    requires AllNamed(arch, g.names) && AllKnown(arch, g.withConditions)
    requires m < |PlainEntries(arch, g.names) + ConditionalEntries(arch, g.withConditions)|
    ensures NamedEntry(g, arch, (PlainEntries(arch, g.names) + ConditionalEntries(arch, g.withConditions))[m])
  {
    hide Names, ConditionalEntries, Number;
    var ps := PlainEntries(arch, g.names);
    if m < |ps| {
      NamesIff(arch, g.names[m], ps[m].num);
    } else {
      var k := ConditionalFrom(arch, g.withConditions, m - |ps|);
    }
  }

  lemma ConditionalAt(arch: ArchInfo, ncs: seq<NameWithConditions>, k: nat) returns (m: nat)
    requires AllKnown(arch, ncs) && k < |ncs|
    ensures var cs := ConditionalEntries(arch, ncs);
            m < |cs| && Names(arch, ncs[k].name, cs[m].num) && ncs[k].conditions in cs[m].conditions
  {
    hide Number, Names;
    var num, nums := Number(arch, ncs[k].name), NumbersOf(arch, ncs);
    assert nums[k] == num;
    FirstOccurrencesSame(nums);
    assert num in FirstOccurrences(nums);
    m :| 0 <= m < |FirstOccurrences(nums)| && FirstOccurrences(nums)[m] == num;
    assert NamedWith(arch, ncs[k], num);
    SetsForMeans(arch, ncs, num, ncs[k].conditions);
    NamesIff(arch, ncs[k].name, num);
  }

  lemma ConditionalFrom(arch: ArchInfo, ncs: seq<NameWithConditions>, m: nat) returns (k: nat)
    requires AllKnown(arch, ncs) && m < |ConditionalEntries(arch, ncs)|
    ensures var e := ConditionalEntries(arch, ncs)[m];
            k < |ncs| && Names(arch, ncs[k].name, e.num) && ncs[k].conditions in e.conditions
  {
    hide Number, Names;
    var nums := NumbersOf(arch, ncs);
    FirstOccurrencesSame(nums);
    var num := FirstOccurrences(nums)[m];
    assert num in nums;
    k :| 0 <= k < |ncs| && nums[k] == num;
    assert NamedWith(arch, ncs[k], num);
    SetsForMeans(arch, ncs, num, ncs[k].conditions);
    NamesIff(arch, ncs[k].name, num);
  }

  /** A group matches a call whose number has the bits of one of its names. */
  lemma GroupMatchesNumbers(g: SyscallGroup, arch: ArchInfo, nr: uint32, d: SeccompData)
    ensures GroupMatches(g, arch, nr, d) <==>
            || (exists k :: 0 <= k < |g.names| && Names(arch, g.names[k], nr))
            || (exists k :: 0 <= k < |g.withConditions| && Names(arch, g.withConditions[k].name, nr)
                  && ValidSet(g.withConditions[k].conditions) && SetHolds(g.withConditions[k].conditions, d))
  {
    hide Names, Number, SetHolds, ValidSet;
    forall k | 0 <= k < |g.names|
      ensures Names(arch, g.names[k], nr) <==> g.names[k] in arch.syscallNames && Number(arch, g.names[k]) == nr
    {
      NamesIff(arch, g.names[k], nr);
    }
    forall k | 0 <= k < |g.withConditions|
      ensures Names(arch, g.withConditions[k].name, nr) <==> NamedWith(arch, g.withConditions[k], nr)
    {
      NamesIff(arch, g.withConditions[k].name, nr);
    }
  }
}
