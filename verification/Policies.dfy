/** System-call policies: what they say, and what a chain of accumulator comparisons makes of them. */
module Policies {
  import opened Words
  import opened Bpf

  datatype Operation =
    | Equal | NotEqual | GreaterThan | LessThan | GreaterOrEqual | LessOrEqual | BitsSet | BitsNotSet

  datatype Condition = Condition(arg: uint32, op: Operation, value: uint64)

  type ConditionSet = seq<Condition>

  datatype NameWithConditions = NameWithConditions(name: string, conditions: ConditionSet)

  datatype SyscallGroup = SyscallGroup(names: seq<string>, withConditions: seq<NameWithConditions>, action: uint32)

  datatype ArchInfo = ArchInfo(id: uint32, syscallNames: map<string, nat>, seccompMask: nat)

  /** A system call to compare with, and the alternative sets of conditions on its arguments. */
  datatype Entry = Entry(num: uint32, conditions: seq<ConditionSet>)

  // ---- meaning ----

  /** The 64-bit meaning of the eight operations. */
  predicate Holds(c: Condition, d: SeccompData)
    requires c.arg <= 5
  {
    var x := d.args[c.arg];
    match c.op
    case Equal => x == c.value
    case NotEqual => x != c.value
    case GreaterThan => x > c.value
    case LessThan => x < c.value
    case GreaterOrEqual => x >= c.value
    case LessOrEqual => x <= c.value
    case BitsSet => SharesBit(x, c.value)
    case BitsNotSet => !SharesBit(x, c.value)
  }

  predicate ValidSet(cs: ConditionSet) { forall k :: 0 <= k < |cs| ==> cs[k].arg <= 5 }

  predicate SetHolds(cs: ConditionSet, d: SeccompData)
    requires ValidSet(cs)
  {
    forall k :: 0 <= k < |cs| ==> Holds(cs[k], d)
  }

  predicate ValidSets(sets: seq<ConditionSet>) { forall k :: 0 <= k < |sets| ==> ValidSet(sets[k]) }

  predicate SomeSetHolds(sets: seq<ConditionSet>, d: SeccompData)
    requires ValidSets(sets)
  {
    exists k :: 0 <= k < |sets| && SetHolds(sets[k], d)
  }

  predicate ValidEntries(es: seq<Entry>) { forall k :: 0 <= k < |es| ==> ValidSets(es[k].conditions) }

  /** The entry matches a call of number `nr` with the arguments of `d`. */
  predicate EntryMatches(e: Entry, nr: uint32, d: SeccompData)
    requires ValidSets(e.conditions)
  {
    nr == e.num && (e.conditions == [] || SomeSetHolds(e.conditions, d))
  }

  predicate ListMatches(es: seq<Entry>, nr: uint32, d: SeccompData)
    requires ValidEntries(es)
  {
    exists k :: 0 <= k < |es| && EntryMatches(es[k], nr, d)
  }

  function Number(arch: ArchInfo, name: string): uint32
    requires name in arch.syscallNames
  {
    BitOr(arch.syscallNames[name], arch.seccompMask) % TWO_TO_32
  }

  /** Some known name of the list has number `num`. */
  predicate Plain(arch: ArchInfo, names: seq<string>, num: uint32) {
    exists k :: 0 <= k < |names| && names[k] in arch.syscallNames && Number(arch, names[k]) == num
  }

  predicate NamedWith(arch: ArchInfo, nc: NameWithConditions, nr: uint32) {
    nc.name in arch.syscallNames && Number(arch, nc.name) == nr
  }

  /** The group, as written, matches a call: it names it, or names it with conditions that all hold. */
  predicate GroupMatches(g: SyscallGroup, arch: ArchInfo, nr: uint32, d: SeccompData) {
    || Plain(arch, g.names, nr)
    || (exists k :: 0 <= k < |g.withConditions| && NamedWith(arch, g.withConditions[k], nr)
          && ValidSet(g.withConditions[k].conditions) && SetHolds(g.withConditions[k].conditions, d))
  }

  /** The action of the first group that matches, otherwise the default. */
  function FirstMatch(groups: seq<SyscallGroup>, default: uint32, arch: ArchInfo, d: SeccompData): uint32 {
    if groups == [] then default
    else if GroupMatches(groups[0], arch, d.nr, d) then groups[0].action
    else FirstMatch(groups[1..], default, arch, d)
  }

  // ---- comparisons that share one accumulator ----

  /** The half of the argument that is in the accumulator once condition `c` has been decided: its high half when that
      alone decided, its low half otherwise. */
  function Leftover(c: Condition, d: SeccompData): uint32
    requires c.arg <= 5
  {
    var x := d.args[c.arg];
    var byHigh := if c.op.BitsSet? || c.op.BitsNotSet? then SharesBit(Hi(x), Hi(c.value)) else Hi(x) != Hi(c.value);
    if byHigh then Hi(x) else Lo(x)
  }

  /** The accumulator after the conditions of a set up to the first that fails. */
  function SetLeftover(cs: ConditionSet, d: SeccompData): uint32
    requires cs != [] && ValidSet(cs)
  {
    if |cs| == 1 || !Holds(cs[0], d) then Leftover(cs[0], d) else SetLeftover(cs[1..], d)
  }

  datatype Threaded = Matched | Missed(acc: uint32)

  predicate NonemptySets(sets: seq<ConditionSet>) { forall k :: 0 <= k < |sets| ==> sets[k] != [] }

  predicate NonemptyEntries(es: seq<Entry>) { forall k :: 0 <= k < |es| ==> NonemptySets(es[k].conditions) }

  /** One entry, compared against whatever the accumulator holds. A failing set leaves an argument half in it. */
  function ThreadEntry(e: Entry, acc: uint32, d: SeccompData): Threaded
    requires ValidSets(e.conditions) && NonemptySets(e.conditions)
  {
    if !EntryMatches(e, acc, d) then
      Missed(if acc == e.num && e.conditions != [] then SetLeftover(e.conditions[|e.conditions| - 1], d) else acc)
    else Matched
  }

  function ThreadEntries(es: seq<Entry>, acc: uint32, d: SeccompData): Threaded
    requires ValidEntries(es) && NonemptyEntries(es)
  {
    if es == [] then Missed(acc)
    else
      match ThreadEntry(es[0], acc, d)
      case Matched => Matched
      case Missed(a) => ThreadEntries(es[1..], a, d)
  }

  // ---- actions ----

  const ACTION_KILL_THREAD: uint32 := 0x0000_0000
  const ACTION_KILL_PROCESS: uint32 := 0x8000_0000
  const ACTION_TRAP: uint32 := 0x0003_0000
  const ACTION_TRACE: uint32 := 0x7ff0_0000
  const ACTION_LOG: uint32 := 0x7ffc_0000
  const ACTION_ALLOW: uint32 := 0x7fff_0000
  const ACTION_ERRNO: uint32 := 0x0005_0000
  const EPERM: uint32 := 1
  const ENOSYS: uint32 := 38

  predicate NamedAction(a: uint32) {
    a in {ACTION_KILL_THREAD, ACTION_KILL_PROCESS, ACTION_TRAP, ACTION_ERRNO, ACTION_TRACE, ACTION_LOG, ACTION_ALLOW}
  }

  /** A bare errno action is returned with EPERM in its data part; the two have no bit in common, so `|` adds them. */
  function ReturnValue(action: uint32): uint32 {
    if action == ACTION_ERRNO then ACTION_ERRNO + EPERM else action
  }
}
