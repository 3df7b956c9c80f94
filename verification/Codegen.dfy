/** Emitting the comparisons of a group into a program. */
module Codegen {
  import opened Words
  import opened Bpf
  import opened Labelled
  import opened Assembler
  import opened Policies

  // ---- what is emitted ----

  /** What a builder leaves behind: the calls it makes and the last label number it has used. */
  datatype Emitted = Emitted(items: seq<Item>, last: Label)

  function CheckTrue(test: Test, val: uint32, onTrue: Label, onFalse: Label): seq<Item> {
    [Branch(test, val, onTrue, onFalse), Mark(onFalse)]
  }

  /** One condition: the high halves are compared first, and the low halves where that leaves it open. */
  function ConditionItems(c: Condition, nextArgument: Label, nextCondition: Label, last: Label, o: Order): Emitted {
    var hi, lo := Hi(c.value), Lo(c.value);
    var ldHi, ldLo := [Labelled.Load(HiOffset(c.arg, o))], [Labelled.Load(LoOffset(c.arg, o))];
    var f1, f2 := last + 1, last + 2;
    match c.op
    case Equal =>
      Emitted(ldHi + CheckTrue(Test.NotEqual, hi, nextCondition, f1)
              + ldLo + [Branch(Test.Equal, lo, nextArgument, nextCondition)], f1)
    case NotEqual =>
      Emitted(ldHi + CheckTrue(Test.NotEqual, hi, nextArgument, f1)
              + ldLo + [Branch(Test.NotEqual, lo, nextArgument, nextCondition)], f1)
    case GreaterThan =>
      Emitted(ldHi + CheckTrue(Test.GreaterThan, hi, nextArgument, f1) + CheckTrue(Test.NotEqual, hi, nextCondition, f2)
              + ldLo + [Branch(Test.GreaterThan, lo, nextArgument, nextCondition)], f2)
    case GreaterOrEqual =>
      Emitted(ldHi + CheckTrue(Test.GreaterThan, hi, nextArgument, f1) + CheckTrue(Test.NotEqual, hi, nextCondition, f2)
              + ldLo + [Branch(Test.GreaterOrEqual, lo, nextArgument, nextCondition)], f2)
    case LessThan =>
      Emitted(ldHi + CheckTrue(Test.LessThan, hi, nextArgument, f1) + CheckTrue(Test.NotEqual, hi, nextCondition, f2)
              + ldLo + [Branch(Test.LessThan, lo, nextArgument, nextCondition)], f2)
    case LessOrEqual =>
      Emitted(ldHi + CheckTrue(Test.LessThan, hi, nextArgument, f1) + CheckTrue(Test.NotEqual, hi, nextCondition, f2)
              + ldLo + [Branch(Test.LessOrEqual, lo, nextArgument, nextCondition)], f2)
    case BitsSet =>
      Emitted(ldHi + CheckTrue(Test.BitsSet, hi, nextArgument, f1)
              + ldLo + [Branch(Test.BitsSet, lo, nextArgument, nextCondition)], f1)
    case BitsNotSet =>
      Emitted(ldHi + CheckTrue(Test.BitsSet, hi, nextCondition, f1)
              + ldLo + [Branch(Test.BitsNotSet, lo, nextArgument, nextCondition)], f1)
  }

  function MarkIf(more: bool, l: Label): seq<Item> { if more then [Mark(l)] else [] }

  lemma NoMarkIf(l: Label)
    ensures MarkIf(false, l) == []
  {}

  /** All conditions of a set must hold: each leads on to the next, the last to `action`. */
  function SetItems(cs: ConditionSet, action: Label, nextCondition: Label, last: Label, o: Order): Emitted {
    if cs == [] then Emitted([], last)
    else
      var more := |cs| > 1;
      var nextArgument := if more then last + 1 else action;
      var head := ConditionItems(cs[0], nextArgument, nextCondition, if more then last + 1 else last, o);
      var rest := SetItems(cs[1..], action, nextCondition, head.last, o);
      Emitted(head.items + MarkIf(more, nextArgument) + rest.items, rest.last)
  }

  /** Some set must hold: each leads on to the next when it fails, the last to `nextSyscall`. */
  function SetsItems(sets: seq<ConditionSet>, action: Label, nextSyscall: Label, last: Label, o: Order): Emitted {
    if sets == [] then Emitted([], last)
    else
      var more := |sets| > 1;
      var nextCondition := if more then last + 1 else nextSyscall;
      var head := SetItems(sets[0], action, nextCondition, if more then last + 1 else last, o);
      var rest := SetsItems(sets[1..], action, nextSyscall, head.last, o);
      Emitted(head.items + MarkIf(more, nextCondition) + rest.items, rest.last)
  }

  function EntryItems(e: Entry, more: bool, action: Label, end: Label, last: Label, o: Order): Emitted {
    if e.conditions == [] then
      if more then Emitted(CheckTrue(Test.Equal, e.num, action, last + 1), last + 1)
      else Emitted([Branch(Test.Equal, e.num, action, end)], last)
    else
      var nextSyscall := if more then last + 1 else end;
      var first := (if more then last + 1 else last) + 1;
      var sets := SetsItems(e.conditions, action, nextSyscall, first, o);
      Emitted(CheckTrue(Test.NotEqual, e.num, nextSyscall, first) + sets.items + MarkIf(more, nextSyscall), sets.last)
  }

  function EntriesItems(es: seq<Entry>, action: Label, end: Label, last: Label, o: Order): Emitted {
    if es == [] then Emitted([], last)
    else
      var head := EntryItems(es[0], |es| > 1, action, end, last, o);
      var rest := EntriesItems(es[1..], action, end, head.last, o);
      Emitted(head.items + rest.items, rest.last)
  }

  function GroupItems(es: seq<Entry>, action: uint32, last: Label, o: Order): Emitted {
    var body := EntriesItems(es, last + 1, last + 2, last + 2, o);
    Emitted(body.items + [Mark(last + 1), Return(ReturnValue(action)), Mark(last + 2)], body.last)
  }

  // ---- emitting it ----

  /** The tables and the label counter after emitting. */
  function After(c: Code, e: Emitted): (Code, Label) { (AppendAll(c, e.items), e.last) }

  lemma AppendOne(c: Code, a: Item)
    ensures AppendAll(c, [a]) == Append(c, a)
  {
    assert [a][1..] == [];
    assert AppendAll(Append(c, a), []) == Append(c, a);
  }

  method NextLabel(p: Program, more: bool, end: Label) returns (l: Label)
    modifies p`nextLabel
    ensures p.nextLabel == old(p.nextLabel) + (if more then 1 else 0)
    ensures l == if more then old(p.nextLabel) + 1 else end
  {
    if more {
      l := p.NewLabel();
      return l;
    }
    return end;
  }

  /** The body of the innermost loop: one condition on one argument. */
  method AssembleCondition(p: Program, c: Condition, nextArgument: Label, nextCondition: Label, nativeEndian: Order)
    modifies p
    ensures (p.Tables(), p.nextLabel)
            == After(old(p.Tables()), ConditionItems(c, nextArgument, nextCondition, old(p.nextLabel), nativeEndian))
  {
    hide ConditionItems, Append, AppendAll;
    ghost var c0, last := p.Tables(), p.nextLabel;
    ghost var ldHi := [Labelled.Load(HiOffset(c.arg, nativeEndian))];
    ghost var ldLo := [Labelled.Load(LoOffset(c.arg, nativeEndian))];
    var hiValue := c.value / TWO_TO_32;
    var loValue := c.value % TWO_TO_32;
    p.LdHi(c.arg, nativeEndian);
    match c.op {
      case Equal =>
        p.JmpIfTrue(Test.NotEqual, hiValue, nextCondition);
        p.LdLo(c.arg, nativeEndian);
        p.JmpIf(Test.Equal, loValue, nextArgument, nextCondition);
        EmitsFour(c0, ldHi[0], CheckTrue(Test.NotEqual, hiValue, nextCondition, last + 1), ldLo[0],
                  Branch(Test.Equal, loValue, nextArgument, nextCondition));
      case NotEqual =>
        p.JmpIfTrue(Test.NotEqual, hiValue, nextArgument);
        p.LdLo(c.arg, nativeEndian);
        p.JmpIf(Test.NotEqual, loValue, nextArgument, nextCondition);
        EmitsFour(c0, ldHi[0], CheckTrue(Test.NotEqual, hiValue, nextArgument, last + 1), ldLo[0],
                  Branch(Test.NotEqual, loValue, nextArgument, nextCondition));
      case GreaterThan =>
        p.JmpIfTrue(Test.GreaterThan, hiValue, nextArgument);
        p.JmpIfTrue(Test.NotEqual, hiValue, nextCondition);
        p.LdLo(c.arg, nativeEndian);
        p.JmpIf(Test.GreaterThan, loValue, nextArgument, nextCondition);
        EmitsFive(c0, ldHi[0], CheckTrue(Test.GreaterThan, hiValue, nextArgument, last + 1),
                  CheckTrue(Test.NotEqual, hiValue, nextCondition, last + 2), ldLo[0],
                  Branch(Test.GreaterThan, loValue, nextArgument, nextCondition));
      case GreaterOrEqual =>
        p.JmpIfTrue(Test.GreaterThan, hiValue, nextArgument);
        p.JmpIfTrue(Test.NotEqual, hiValue, nextCondition);
        p.LdLo(c.arg, nativeEndian);
        p.JmpIf(Test.GreaterOrEqual, loValue, nextArgument, nextCondition);
        EmitsFive(c0, ldHi[0], CheckTrue(Test.GreaterThan, hiValue, nextArgument, last + 1),
                  CheckTrue(Test.NotEqual, hiValue, nextCondition, last + 2), ldLo[0],
                  Branch(Test.GreaterOrEqual, loValue, nextArgument, nextCondition));
      case LessThan =>
        p.JmpIfTrue(Test.LessThan, hiValue, nextArgument);
        p.JmpIfTrue(Test.NotEqual, hiValue, nextCondition);
        p.LdLo(c.arg, nativeEndian);
        p.JmpIf(Test.LessThan, loValue, nextArgument, nextCondition);
        EmitsFive(c0, ldHi[0], CheckTrue(Test.LessThan, hiValue, nextArgument, last + 1),
                  CheckTrue(Test.NotEqual, hiValue, nextCondition, last + 2), ldLo[0],
                  Branch(Test.LessThan, loValue, nextArgument, nextCondition));
      case LessOrEqual =>
        p.JmpIfTrue(Test.LessThan, hiValue, nextArgument);
        p.JmpIfTrue(Test.NotEqual, hiValue, nextCondition);
        p.LdLo(c.arg, nativeEndian);
        p.JmpIf(Test.LessOrEqual, loValue, nextArgument, nextCondition);
        EmitsFive(c0, ldHi[0], CheckTrue(Test.LessThan, hiValue, nextArgument, last + 1),
                  CheckTrue(Test.NotEqual, hiValue, nextCondition, last + 2), ldLo[0],
                  Branch(Test.LessOrEqual, loValue, nextArgument, nextCondition));
      case BitsSet =>
        p.JmpIfTrue(Test.BitsSet, hiValue, nextArgument);
        p.LdLo(c.arg, nativeEndian);
        p.JmpIf(Test.BitsSet, loValue, nextArgument, nextCondition);
        EmitsFour(c0, ldHi[0], CheckTrue(Test.BitsSet, hiValue, nextArgument, last + 1), ldLo[0],
                  Branch(Test.BitsSet, loValue, nextArgument, nextCondition));
      case BitsNotSet =>
        p.JmpIfTrue(Test.BitsSet, hiValue, nextCondition);
        p.LdLo(c.arg, nativeEndian);
        p.JmpIf(Test.BitsNotSet, loValue, nextArgument, nextCondition);
        EmitsFour(c0, ldHi[0], CheckTrue(Test.BitsSet, hiValue, nextCondition, last + 1), ldLo[0],
                  Branch(Test.BitsNotSet, loValue, nextArgument, nextCondition));
    }
    ConditionCases(c, nextArgument, nextCondition, last, nativeEndian);
  }

  lemma EmitsFour(c: Code, a: Item, check: seq<Item>, b: Item, br: Item)
    ensures AppendAll(c, [a] + check + [b] + [br]) == Append(Append(AppendAll(Append(c, a), check), b), br)
  {
    AppendOne(c, a);
    AppendAllConcat(c, [a], check);
    AppendAllConcat(c, [a] + check, [b]);
    AppendOne(AppendAll(c, [a] + check), b);
    AppendAllConcat(c, [a] + check + [b], [br]);
    AppendOne(AppendAll(c, [a] + check + [b]), br);
  }

  lemma EmitsFive(c: Code, a: Item, check: seq<Item>, check': seq<Item>, b: Item, br: Item)
    ensures AppendAll(c, [a] + check + check' + [b] + [br])
            == Append(Append(AppendAll(AppendAll(Append(c, a), check), check'), b), br)
  {
    AppendOne(c, a);
    AppendAllConcat(c, [a], check);
    AppendAllConcat(c, [a] + check, check');
    AppendAllConcat(c, [a] + check + check', [b]);
    AppendOne(AppendAll(c, [a] + check + check'), b);
    AppendAllConcat(c, [a] + check + check' + [b], [br]);
    AppendOne(AppendAll(c, [a] + check + check' + [b]), br);
  }

  /** The four shapes of the eight operations: the test that may decide on the high half, and where it leads. */
  lemma ConditionCases(c: Condition, na: Label, nc: Label, last: Label, o: Order)
    ensures var ldHi, ldLo := [Labelled.Load(HiOffset(c.arg, o))], [Labelled.Load(LoOffset(c.arg, o))];
            ConditionItems(c, na, nc, last, o)
            == if c.op.Equal? || c.op.NotEqual? || c.op.BitsSet? || c.op.BitsNotSet? then
                 Emitted(ldHi + CheckTrue(if c.op.BitsSet? || c.op.BitsNotSet? then Test.BitsSet else Test.NotEqual,
                                          Hi(c.value), if c.op.Equal? || c.op.BitsNotSet? then nc else na, last + 1)
                         + ldLo + [Branch(LowTest(c.op), Lo(c.value), na, nc)], last + 1)
               else
                 Emitted(ldHi + CheckTrue(if c.op.GreaterThan? || c.op.GreaterOrEqual? then Test.GreaterThan else Test.LessThan,
                                          Hi(c.value), na, last + 1)
                         + CheckTrue(Test.NotEqual, Hi(c.value), nc, last + 2)
                         + ldLo + [Branch(LowTest(c.op), Lo(c.value), na, nc)], last + 2)
  {}

  function LowTest(op: Operation): Test {
    match op
    case Equal => Test.Equal
    case NotEqual => Test.NotEqual
    case GreaterThan => Test.GreaterThan
    case LessThan => Test.LessThan
    case GreaterOrEqual => Test.GreaterOrEqual
    case LessOrEqual => Test.LessOrEqual
    case BitsSet => Test.BitsSet
    case BitsNotSet => Test.BitsNotSet
  }

  lemma SetStep(c: Code, cs: ConditionSet, action: Label, nextCondition: Label, last: Label, o: Order)
    requires cs != []
    ensures var more := |cs| > 1;
            var nextArgument := if more then last + 1 else action;
            var head := ConditionItems(cs[0], nextArgument, nextCondition, if more then last + 1 else last, o);
            After(c, SetItems(cs, action, nextCondition, last, o))
            == After(AppendAll(AppendAll(c, head.items), MarkIf(more, nextArgument)),
                     SetItems(cs[1..], action, nextCondition, head.last, o))
  {
    hide ConditionItems, AppendAll;
    var more := |cs| > 1;
    var nextArgument := if more then last + 1 else action;
    var head := ConditionItems(cs[0], nextArgument, nextCondition, if more then last + 1 else last, o);
    AppendAllConcat(c, head.items, MarkIf(more, nextArgument));
    AppendAllConcat(c, head.items + MarkIf(more, nextArgument), SetItems(cs[1..], action, nextCondition, head.last, o).items);
  }

  lemma SetsStep(c: Code, sets: seq<ConditionSet>, action: Label, nextSyscall: Label, last: Label, o: Order)
    requires sets != []
    ensures var more := |sets| > 1;
            var nextCondition := if more then last + 1 else nextSyscall;
            var head := SetItems(sets[0], action, nextCondition, if more then last + 1 else last, o);
            After(c, SetsItems(sets, action, nextSyscall, last, o))
            == After(AppendAll(AppendAll(c, head.items), MarkIf(more, nextCondition)),
                     SetsItems(sets[1..], action, nextSyscall, head.last, o))
  {
    hide SetItems, AppendAll;
    var more := |sets| > 1;
    var nextCondition := if more then last + 1 else nextSyscall;
    var head := SetItems(sets[0], action, nextCondition, if more then last + 1 else last, o);
    AppendAllConcat(c, head.items, MarkIf(more, nextCondition));
    AppendAllConcat(c, head.items + MarkIf(more, nextCondition), SetsItems(sets[1..], action, nextSyscall, head.last, o).items);
  }

  lemma EntriesStep(c: Code, es: seq<Entry>, action: Label, end: Label, last: Label, o: Order)
    requires es != []
    ensures var head := EntryItems(es[0], |es| > 1, action, end, last, o);
            After(c, EntriesItems(es, action, end, last, o))
            == After(AppendAll(c, head.items), EntriesItems(es[1..], action, end, head.last, o))
  {
    hide EntryItems, AppendAll;
    var head := EntryItems(es[0], |es| > 1, action, end, last, o);
    AppendAllConcat(c, head.items, EntriesItems(es[1..], action, end, head.last, o).items);
  }

  method MarkWhen(p: Program, more: bool, l: Label)
    modifies p
    ensures p.Tables() == AppendAll(old(p.Tables()), MarkIf(more, l)) && p.nextLabel == old(p.nextLabel)
  {
    if more {
      p.SetLabel(l);
      AppendOne(old(p.Tables()), Mark(l));
    }
  }

  /** The inner loop: all conditions in a set must match. */
  method AssembleSet(p: Program, conditions: ConditionSet, action: Label, nextCondition: Label, nativeEndian: Order)
    modifies p
    ensures (p.Tables(), p.nextLabel)
            == After(old(p.Tables()), SetItems(conditions, action, nextCondition, old(p.nextLabel), nativeEndian))
  {
    hide ConditionItems, AppendAll, SetItems, MarkIf;
    ghost var c0, last := p.Tables(), p.nextLabel;
    assert conditions[0..] == conditions;
    for i := 0 to |conditions|
      invariant After(p.Tables(), SetItems(conditions[i..], action, nextCondition, p.nextLabel, nativeEndian))
                == After(c0, SetItems(conditions, action, nextCondition, last, nativeEndian))
    {
      var moreArguments := i < |conditions| - 1;
      SetStep(p.Tables(), conditions[i..], action, nextCondition, p.nextLabel, nativeEndian);
      assert conditions[i..][1..] == conditions[i + 1..];
      var nextArgument := NextLabel(p, moreArguments, action);
      AssembleCondition(p, conditions[i], nextArgument, nextCondition, nativeEndian);
      MarkWhen(p, moreArguments, nextArgument);
    }
    NoItems(p.Tables(), action, nextCondition, p.nextLabel, nativeEndian);
  }

  lemma NoItems(c: Code, action: Label, next: Label, last: Label, o: Order)
    ensures After(c, SetItems([], action, next, last, o)) == (c, last)
    ensures After(c, SetsItems([], action, next, last, o)) == (c, last)
    ensures After(c, EntriesItems([], action, next, last, o)) == (c, last)
  {}

  /** `SyscallWithConditions.Assemble` */
  method AssembleEntry(p: Program, e: Entry, moreSyscalls: bool, action: Label, end: Label, nativeEndian: Order)
    modifies p
    ensures (p.Tables(), p.nextLabel)
            == After(old(p.Tables()), EntryItems(e, moreSyscalls, action, end, old(p.nextLabel), nativeEndian))
  {
    hide AppendAll, SetItems, MarkIf, SetsItems;
    ghost var c0, last := p.Tables(), p.nextLabel;
    if |e.conditions| == 0 {
      if moreSyscalls {
        p.JmpIfTrue(Test.Equal, e.num, action);
      } else {
        p.JmpIf(Test.Equal, e.num, action, end);
        AppendOne(c0, Branch(Test.Equal, e.num, action, end));
      }
      return;
    }
    var nextSyscall := NextLabel(p, moreSyscalls, end);
    ghost var first := p.nextLabel + 1;
    p.JmpIfTrue(Test.NotEqual, e.num, nextSyscall);
    ghost var c1 := p.Tables();
    ghost var sets := SetsItems(e.conditions, action, nextSyscall, first, nativeEndian);
    assert e.conditions[0..] == e.conditions;
    for j := 0 to |e.conditions|
      invariant After(p.Tables(), SetsItems(e.conditions[j..], action, nextSyscall, p.nextLabel, nativeEndian))
                == After(c1, sets)
    {
      var moreConditions := j < |e.conditions| - 1;
      SetsStep(p.Tables(), e.conditions[j..], action, nextSyscall, p.nextLabel, nativeEndian);
      assert e.conditions[j..][1..] == e.conditions[j + 1..];
      var nextCondition := NextLabel(p, moreConditions, nextSyscall);
      AssembleSet(p, e.conditions[j], action, nextCondition, nativeEndian);
      MarkWhen(p, moreConditions, nextCondition);
    }
    NoItems(p.Tables(), action, nextSyscall, p.nextLabel, nativeEndian);
    MarkWhen(p, moreSyscalls, nextSyscall);
    ghost var check := CheckTrue(Test.NotEqual, e.num, nextSyscall, first);
    AppendAllConcat(c0, check, sets.items);
    AppendAllConcat(c0, check + sets.items, MarkIf(moreSyscalls, nextSyscall));
  }

  /** The loop and the tail of `SyscallGroup.Assemble`, for a nonempty merged list. */
  method AssembleEntries(p: Program, syscalls: seq<Entry>, action: uint32, nativeEndian: Order)
    modifies p
    ensures (p.Tables(), p.nextLabel) == After(old(p.Tables()), GroupItems(syscalls, action, old(p.nextLabel), nativeEndian))
  {
    hide AppendAll, EntryItems, EntriesItems;
    ghost var c0, last := p.Tables(), p.nextLabel;
    var actionLabel := p.NewLabel();
    var nextGroupLabel := p.NewLabel();
    ghost var body := EntriesItems(syscalls, actionLabel, nextGroupLabel, last + 2, nativeEndian);
    assert syscalls[0..] == syscalls;
    for i := 0 to |syscalls|
      invariant After(p.Tables(), EntriesItems(syscalls[i..], actionLabel, nextGroupLabel, p.nextLabel, nativeEndian))
                == After(c0, body)
    {
      var moreSyscalls := i < |syscalls| - 1;
      EntriesStep(p.Tables(), syscalls[i..], actionLabel, nextGroupLabel, p.nextLabel, nativeEndian);
      assert syscalls[i..][1..] == syscalls[i + 1..];
      AssembleEntry(p, syscalls[i], moreSyscalls, actionLabel, nextGroupLabel, nativeEndian);
    }
    NoItems(p.Tables(), actionLabel, nextGroupLabel, p.nextLabel, nativeEndian);
    ghost var c1 := p.Tables();
    p.SetLabel(actionLabel);
    p.Ret(action);
    p.SetLabel(nextGroupLabel);
    EmitsTail(c1, Mark(actionLabel), Return(ReturnValue(action)), Mark(nextGroupLabel));
    AppendAllConcat(c0, body.items, [Mark(actionLabel), Return(ReturnValue(action)), Mark(nextGroupLabel)]);
  }

  lemma EmitsTail(c: Code, x: Item, y: Item, z: Item)
    ensures AppendAll(c, [x, y, z]) == Append(Append(Append(c, x), y), z)
  {
    assert [x, y, z] == [x] + [y] + [z];
    AppendAllConcat(c, [x] + [y], [z]);
    AppendAllConcat(c, [x], [y]);
    AppendOne(c, x);
    AppendOne(Append(c, x), y);
    AppendOne(Append(Append(c, x), y), z);
  }
}
