/** The whole compiler: policies to filter programs, and what the filters return. */
module Compiler {
  import opened Results
  import opened Words
  import opened Bpf
  import opened Labelled
  import opened Assembler
  import opened Policies
  import opened Merge
  import opened Codegen
  import opened Tameness

  const X86_64_ID: uint32 := 0xc000_003e
  const X32_SYSCALL_BIT: uint32 := 0x4000_0000

  datatype PolicyError =
    | InvalidDefaultAction(action: uint32)
    | NoSyscalls
    | UnsupportedArch
    | BadGroup(problems: seq<Problem>)
    | NotResolved(error: AsmError)

  // ---- the builder calls of a whole policy ----

  predicate EmptyGroup(g: SyscallGroup) { |g.names| + |g.withConditions| == 0 }

  function GroupsItems(groups: seq<SyscallGroup>, arch: ArchInfo, last: Label, o: Order): Result<Emitted, seq<Problem>> {
    if groups == [] then Ok(Emitted([], last))
    else if EmptyGroup(groups[0]) then GroupsItems(groups[1..], arch, last, o)
    else
      var m := MergeGroup(groups[0], arch);
      if m.problems != [] then Err(m.problems)
      else
        var head := GroupItems(m.entries, groups[0].action, last, o);
        match GroupsItems(groups[1..], arch, head.last, o)
        case Err(ps) => Err(ps)
        case Ok(rest) => Ok(Emitted(head.items + rest.items, rest.last))
  }

  /** All builder calls of a policy whose groups merge. */
  function PolicyItems(groups: seq<SyscallGroup>, default: uint32, arch: ArchInfo, o: Order): (items: seq<Item>)
    requires GroupsItems(groups, arch, 1, o).Ok?
    ensures items != [] && items[|items| - 1].Return?
  {
    GroupsItems(groups, arch, 1, o).value.items + [Return(ReturnValue(default))]
  }

  lemma {:induction false} GroupsClosed(groups: seq<SyscallGroup>, arch: ArchInfo, last: Label, o: Order, k: seq<Item>)
    requires GroupsItems(groups, arch, last, o).Ok? && Closed(k)
    ensures Closed(GroupsItems(groups, arch, last, o).value.items + k)
  {
    hide Closed, GroupItems, MergeGroup;
    if groups == [] {
      assert [] + k == k;
    } else if EmptyGroup(groups[0]) {
      GroupsClosed(groups[1..], arch, last, o, k);
    } else {
      var es := MergeGroup(groups[0], arch).entries;
      var head := GroupItems(es, groups[0].action, last, o);
      var rest := GroupsItems(groups[1..], arch, head.last, o).value.items;
      GroupsClosed(groups[1..], arch, head.last, o, k);
      GroupClosed(es, groups[0].action, last, o, rest + k);
      assert head.items + rest + k == head.items + (rest + k);
    }
  }

  /** The tables of every policy whose groups merge can be assembled without a panic. */
  lemma PolicyReady(groups: seq<SyscallGroup>, default: uint32, arch: ArchInfo, o: Order)
    requires GroupsItems(groups, arch, 1, o).Ok?
    ensures Ready(Whole(PolicyItems(groups, default, arch, o)))
  {
    hide Ready, GroupsItems, Whole;
    ClosedReturn(ReturnValue(default));
    GroupsClosed(groups, arch, 1, o, [Return(ReturnValue(default))]);
    ClosedIsReady(PolicyItems(groups, default, arch, o));
  }

  lemma ClosedReturn(v: uint32)
    ensures Closed([Return(v)])
  {
    assert [Return(v)][1..] == [];
  }

  // ---- the prologue ----

  function X32Filter(arch: ArchInfo): seq<Instr> {
    if arch.id == X86_64_ID then
      [JumpIf(Test.GreaterOrEqual, X32_SYSCALL_BIT, 0, 1), RetConstant(ACTION_ERRNO + ENOSYS)]
    else []
  }

  /** Checks the architecture, loads the system-call number and filters out x32 in front of `instrs`. */
  function Prologue(arch: ArchInfo, instrs: seq<Instr>): seq<Instr> {
    var jumpN := |X32Filter(arch)| + |instrs|;
    [LoadAbsolute(4, 4)]
    + (if jumpN <= 255 then [JumpIf(Test.NotEqual, arch.id, jumpN, 0)]
       else [JumpIf(Test.Equal, arch.id, 1, 0), Jump(jumpN % TWO_TO_32)])
    + [LoadAbsolute(0, 4)] + X32Filter(arch) + instrs
  }

  /** The filter of a policy with a known architecture, or the error that stops its compilation. */
  function Filter(groups: seq<SyscallGroup>, default: uint32, arch: ArchInfo, o: Order): Result<seq<Instr>, PolicyError> {
    match GroupsItems(groups, arch, 1, o)
    case Err(ps) => Err(BadGroup(ps))
    case Ok(_) =>
      PolicyReady(groups, default, arch, o);
      var (c, e) := AssembleFrom(Whole(PolicyItems(groups, default, arch, o)), 0);
      if e.Some? then Err(NotResolved(e.value)) else Ok(Prologue(arch, c.instrs))
  }

  /** `SyscallGroup.Assemble` */
  method AssembleGroup(g: SyscallGroup, arch: ArchInfo, p: Program, nativeEndian: Order) returns (r: Result<(), seq<Problem>>)
    modifies p
    ensures var m := MergeGroup(g, arch);
            if EmptyGroup(g) then r == Ok(()) && p.Tables() == old(p.Tables()) && p.nextLabel == old(p.nextLabel)
            else if m.problems != [] then
              r == Err(m.problems) && p.Tables() == old(p.Tables()) && p.nextLabel == old(p.nextLabel)
            else
              r == Ok(()) && (p.Tables(), p.nextLabel)
                             == After(old(p.Tables()), GroupItems(m.entries, g.action, old(p.nextLabel), nativeEndian))
  {
    if |g.names| + |g.withConditions| == 0 {
      return Ok(());
    }
    var syscalls := ToSyscallsWithConditions(g, arch);
    if syscalls.Err? {
      return Err(syscalls.error);
    }
    AssembleEntries(p, syscalls.value, g.action, nativeEndian);
    return Ok(());
  }

  class Policy {
    var defaultAction: uint32
    var syscalls: seq<SyscallGroup>
    var arch: Option<ArchInfo>

    constructor (defaultAction: uint32, syscalls: seq<SyscallGroup>)
      ensures this.defaultAction == defaultAction && this.syscalls == syscalls && arch == None
    {
      this.defaultAction, this.syscalls, arch := defaultAction, syscalls, None;
    }

    method Validate() returns (r: Option<PolicyError>)
      ensures var known := defaultAction in {0, 0x3_0000, 0x5_0000, 0x7ff0_0000, 0x7ffc_0000, 0x7fff_0000, 0x8000_0000};
              && (r.None? <==> known && syscalls != [])
              && (r == Some(InvalidDefaultAction(defaultAction)) <==> !known)
              && (r == Some(NoSyscalls) <==> known && syscalls == [])
    {
      if !NamedAction(defaultAction) {
        return Some(InvalidDefaultAction(defaultAction));
      }
      if |syscalls| == 0 {
        return Some(NoSyscalls);
      }
      return None;
    }

    /** `native` is the running machine's architecture, if it is supported. */
    method Assemble(native: Option<ArchInfo>, nativeEndian: Order) returns (r: Result<seq<Instr>, PolicyError>)
      modifies this`arch
      ensures var known := defaultAction in {0, 0x3_0000, 0x5_0000, 0x7ff0_0000, 0x7ffc_0000, 0x7fff_0000, 0x8000_0000};
              if !known then r == Err(InvalidDefaultAction(defaultAction)) && arch == old(arch)
              else if syscalls == [] then r == Err(NoSyscalls) && arch == old(arch)
              else
                && arch == (if old(arch).Some? then old(arch) else native)
                && r == if arch.None? then Err(UnsupportedArch)
                        else Filter(syscalls, defaultAction, arch.value, nativeEndian)
    {
      var invalid := Validate();
      if invalid.Some? {
        return Err(invalid.value);
      }
      if arch.None? {
        if native.None? {
          return Err(UnsupportedArch);
        }
        arch := native;
      }
      r := Build(arch.value, nativeEndian);
    }

    /** The rest of `Assemble`, once the architecture is known. */
    method Build(info: ArchInfo, nativeEndian: Order) returns (r: Result<seq<Instr>, PolicyError>)
      ensures r == Filter(syscalls, defaultAction, info, nativeEndian)
    {
      hide GroupItems, MergeGroup, AppendAll, Append, Ready, AssembleFrom, EmptyGroup, Prologue;
      var prog := new Program();
      ghost var all := GroupsItems(syscalls, info, 1, nativeEndian);
      assert syscalls[0..] == syscalls;
      for k := 0 to |syscalls|
        invariant fresh(prog)
        invariant var rest := GroupsItems(syscalls[k..], info, prog.nextLabel, nativeEndian);
                  if all.Err? then rest == all
                  else rest.Ok? && AppendAll(prog.Tables(), rest.value.items) == AppendAll(EMPTY, all.value.items)
      {
        var group := syscalls[k];
        ghost var before, last := prog.Tables(), prog.nextLabel;
        assert syscalls[k..][0] == group && syscalls[k..][1..] == syscalls[k + 1..];
        GroupsStep(before, syscalls[k..], info, last, nativeEndian);
        var e := AssembleGroup(group, info, prog, nativeEndian);
        if e.Err? {
          return Err(BadGroup(e.error));
        }
      }
      ghost var items := PolicyItems(syscalls, defaultAction, info, nativeEndian);
      NothingLeft(prog.Tables());
      prog.Ret(defaultAction);
      AppendAllConcat(EMPTY, all.value.items, [Return(ReturnValue(defaultAction))]);
      AppendOne(AppendAll(EMPTY, all.value.items), Return(ReturnValue(defaultAction)));
      assert prog.Tables() == Whole(items);
      PolicyReady(syscalls, defaultAction, info, nativeEndian);
      var instructions := prog.Assemble();
      if instructions.Err? {
        return Err(NotResolved(instructions.error));
      }
      var body := instructions.value;
      var x32Filter: seq<Instr> := [];
      if info.id == X86_64_ID {
        x32Filter := [JumpIf(Test.GreaterOrEqual, X32_SYSCALL_BIT, 0, 1), RetConstant(ACTION_ERRNO + ENOSYS)];
      }
      var program := [LoadAbsolute(4, 4)];
      var jumpN := |x32Filter| + |body|;
      if jumpN <= 255 {
        program := program + [JumpIf(Test.NotEqual, info.id, jumpN, 0)];
      } else {
        program := program + [JumpIf(Test.Equal, info.id, 1, 0)];
        program := program + [Jump(jumpN % TWO_TO_32)];
      }
      program := program + [LoadAbsolute(0, 4)];
      program := program + x32Filter;
      program := program + body;
      PrologueParts(info, body, x32Filter);
      return Ok(program);
    }
  }

  lemma PrologueParts(info: ArchInfo, body: seq<Instr>, x32Filter: seq<Instr>)
    requires x32Filter == X32Filter(info)
    ensures var jumpN := |x32Filter| + |body|;
            var check := if jumpN <= 255 then [LoadAbsolute(4, 4)] + [JumpIf(Test.NotEqual, info.id, jumpN, 0)]
                         else [LoadAbsolute(4, 4)] + [JumpIf(Test.Equal, info.id, 1, 0)] + [Jump(jumpN % TWO_TO_32)];
            Prologue(info, body) == check + [LoadAbsolute(0, 4)] + x32Filter + body
  {
    hide X32Filter;
  }

  lemma NothingLeft(c: Code)
    ensures AppendAll(c, []) == c
  {}

  lemma GroupsStep(c: Code, groups: seq<SyscallGroup>, arch: ArchInfo, last: Label, o: Order)
    requires groups != []
    ensures var g, all := groups[0], GroupsItems(groups, arch, last, o);
            var m := MergeGroup(g, arch);
            if EmptyGroup(g) then all == GroupsItems(groups[1..], arch, last, o)
            else if m.problems != [] then all == Err(m.problems)
            else
              var head := GroupItems(m.entries, g.action, last, o);
              var rest := GroupsItems(groups[1..], arch, head.last, o);
              if rest.Err? then all == rest
              else all.Ok? && AppendAll(c, all.value.items) == AppendAll(AppendAll(c, head.items), rest.value.items)
  {
    hide GroupItems, MergeGroup, AppendAll;
    if !EmptyGroup(groups[0]) && MergeGroup(groups[0], arch).problems == [] {
      var head := GroupItems(MergeGroup(groups[0], arch).entries, groups[0].action, last, o);
      var rest := GroupsItems(groups[1..], arch, head.last, o);
      if rest.Ok? {
        AppendAllConcat(c, head.items, rest.value.items);
      }
    }
  }
}
