/** The emitted comparisons mean what the accumulator-threading evaluator says. */
module CodegenMeaning {
  import opened Words
  import opened Bpf
  import opened Labelled
  import opened Policies
  import opened Codegen

  // ---- labels are fresh ----

  function MarkCount(items: seq<Item>, l: Label): nat {
    if items == [] then 0 else (if items[0] == Mark(l) then 1 else 0) + MarkCount(items[1..], l)
  }

  lemma {:induction false} MarkCountConcat(a: seq<Item>, b: seq<Item>, l: Label)
    ensures MarkCount(a + b, l) == MarkCount(a, l) + MarkCount(b, l)
  {
    if a == [] {
      assert a + b == b;
    } else {
      assert (a + b)[1..] == a[1..] + b;
      MarkCountConcat(a[1..], b, l);
    }
  }

  lemma {:induction false} MarkCountMarks(items: seq<Item>, l: Label)
    ensures MarkCount(items, l) > 0 <==> Marks(items, l)
  {
    if items != [] {
      MarkCountMarks(items[1..], l);
    }
  }

  /** The items set only labels in `(lo, hi]`, each at most once. */
  ghost predicate Within(items: seq<Item>, lo: Label, hi: Label) {
    lo <= hi && forall l: Label :: MarkCount(items, l) <= if lo < l <= hi then 1 else 0
  }

  lemma CountCheck(test: Test, val: uint32, onTrue: Label, onFalse: Label, l: Label)
    ensures MarkCount(CheckTrue(test, val, onTrue, onFalse), l) == if l == onFalse then 1 else 0
  {
    assert CheckTrue(test, val, onTrue, onFalse)[1..] == [Mark(onFalse)];
    CountOne(Mark(onFalse), l);
  }

  lemma CountOne(it: Item, l: Label)
    ensures MarkCount([it], l) == if it == Mark(l) then 1 else 0
  {
    assert [it][1..] == [];
  }

  lemma CountMarkIf(more: bool, m: Label, l: Label)
    ensures MarkCount(MarkIf(more, m), l) == if more && l == m then 1 else 0
  {
    CountOne(Mark(m), l);
  }

  lemma ConditionWithin(c: Condition, na: Label, nc: Label, last: Label, o: Order)
    ensures var e := ConditionItems(c, na, nc, last, o); Within(e.items, last, e.last)
  {
    var e := ConditionItems(c, na, nc, last, o);
    forall l: Label ensures MarkCount(e.items, l) <= if last < l <= e.last then 1 else 0 {
      ConditionMarks(c, na, nc, last, o, l);
    }
  }

  lemma ConditionMarks(c: Condition, na: Label, nc: Label, last: Label, o: Order, l: Label)
    ensures var e := ConditionItems(c, na, nc, last, o);
            last < e.last <= last + 2 && MarkCount(e.items, l) == if last < l <= e.last then 1 else 0
  {
    ConditionCases(c, na, nc, last, o);
    hide ConditionItems, CheckTrue, MarkCount;
    var a, b := Labelled.Load(HiOffset(c.arg, o)), Labelled.Load(LoOffset(c.arg, o));
    var br := Branch(LowTest(c.op), Lo(c.value), na, nc);
    CountOne(a, l);
    CountOne(b, l);
    CountOne(br, l);
    if c.op.Equal? || c.op.NotEqual? || c.op.BitsSet? || c.op.BitsNotSet? {
      var test := if c.op.BitsSet? || c.op.BitsNotSet? then Test.BitsSet else Test.NotEqual;
      var to := if c.op.Equal? || c.op.BitsNotSet? then nc else na;
      var check := CheckTrue(test, Hi(c.value), to, last + 1);
      CountCheck(test, Hi(c.value), to, last + 1, l);
      MarkCountConcat([a], check, l);
      MarkCountConcat([a] + check, [b], l);
      MarkCountConcat([a] + check + [b], [br], l);
    } else {
      var test := if c.op.GreaterThan? || c.op.GreaterOrEqual? then Test.GreaterThan else Test.LessThan;
      var check, check' := CheckTrue(test, Hi(c.value), na, last + 1), CheckTrue(Test.NotEqual, Hi(c.value), nc, last + 2);
      CountCheck(test, Hi(c.value), na, last + 1, l);
      CountCheck(Test.NotEqual, Hi(c.value), nc, last + 2, l);
      MarkCountConcat([a], check, l);
      MarkCountConcat([a] + check, check', l);
      MarkCountConcat([a] + check + check', [b], l);
      MarkCountConcat([a] + check + check' + [b], [br], l);
    }
  }

  /** Three pieces, the middle one setting the label that was reserved first. */
  lemma JoinWithin(head: seq<Item>, more: bool, rest: seq<Item>, last: Label, mid: Label, hi: Label)
    requires Within(head, if more then last + 1 else last, mid) && Within(rest, mid, hi)
    ensures Within(head + MarkIf(more, last + 1) + rest, last, hi)
  {
    var all := head + MarkIf(more, last + 1) + rest;
    forall l: Label ensures MarkCount(all, l) <= if last < l <= hi then 1 else 0 {
      hide MarkCount, MarkIf;
      MarkCountConcat(head, MarkIf(more, last + 1), l);
      MarkCountConcat(head + MarkIf(more, last + 1), rest, l);
      CountMarkIf(more, last + 1, l);
    }
  }

  lemma NothingWithin(last: Label)
    ensures Within([], last, last)
  {}

  lemma {:induction false} SetWithin(cs: ConditionSet, action: Label, nc: Label, last: Label, o: Order)
    ensures var e := SetItems(cs, action, nc, last, o); Within(e.items, last, e.last)
  {
    hide ConditionItems, Within, MarkIf;
    if cs == [] {
      NothingWithin(last);
    } else {
      var more := |cs| > 1;
      var na := if more then last + 1 else action;
      var head := ConditionItems(cs[0], na, nc, if more then last + 1 else last, o);
      var rest := SetItems(cs[1..], action, nc, head.last, o);
      ConditionWithin(cs[0], na, nc, if more then last + 1 else last, o);
      SetWithin(cs[1..], action, nc, head.last, o);
      MarkUnused(more, last + 1, action);
      JoinWithin(head.items, more, rest.items, last, head.last, rest.last);
    }
  }

  lemma MarkUnused(more: bool, l: Label, other: Label)
    ensures MarkIf(more, if more then l else other) == MarkIf(more, l)
  {}

  lemma {:induction false} SetsWithin(sets: seq<ConditionSet>, action: Label, next: Label, last: Label, o: Order)
    ensures var e := SetsItems(sets, action, next, last, o); Within(e.items, last, e.last)
  {
    hide SetItems, Within, MarkIf;
    if sets == [] {
      NothingWithin(last);
    } else {
      var more := |sets| > 1;
      var nc := if more then last + 1 else next;
      var head := SetItems(sets[0], action, nc, if more then last + 1 else last, o);
      var rest := SetsItems(sets[1..], action, next, head.last, o);
      SetWithin(sets[0], action, nc, if more then last + 1 else last, o);
      SetsWithin(sets[1..], action, next, head.last, o);
      MarkUnused(more, last + 1, next);
      JoinWithin(head.items, more, rest.items, last, head.last, rest.last);
    }
  }

  lemma EntryWithin(e: Entry, more: bool, action: Label, end: Label, last: Label, o: Order)
    ensures var r := EntryItems(e, more, action, end, last, o); Within(r.items, last, r.last)
  {
    var r := EntryItems(e, more, action, end, last, o);
    if e.conditions == [] {
      forall l: Label ensures MarkCount(r.items, l) <= if last < l <= r.last then 1 else 0 {
        if more {
          CountCheck(Test.Equal, e.num, action, last + 1, l);
        }
      }
    } else {
      var next := if more then last + 1 else end;
      var first := (if more then last + 1 else last) + 1;
      var sets := SetsItems(e.conditions, action, next, first, o);
      SetsWithin(e.conditions, action, next, first, o);
      forall l: Label ensures MarkCount(r.items, l) <= if last < l <= r.last then 1 else 0 {
        hide MarkCount, MarkIf, CheckTrue, SetsItems;
        var check := CheckTrue(Test.NotEqual, e.num, next, first);
        CountCheck(Test.NotEqual, e.num, next, first, l);
        MarkUnused(more, last + 1, end);
        CountMarkIf(more, last + 1, l);
        MarkCountConcat(check, sets.items, l);
        MarkCountConcat(check + sets.items, MarkIf(more, next), l);
      }
    }
  }

  lemma {:induction false} EntriesWithin(es: seq<Entry>, action: Label, end: Label, last: Label, o: Order)
    ensures var r := EntriesItems(es, action, end, last, o); Within(r.items, last, r.last)
  {
    hide EntryItems, Within;
    if es == [] {
      NothingWithin(last);
    } else {
      var head := EntryItems(es[0], |es| > 1, action, end, last, o);
      var rest := EntriesItems(es[1..], action, end, head.last, o);
      EntryWithin(es[0], |es| > 1, action, end, last, o);
      EntriesWithin(es[1..], action, end, head.last, o);
      ConcatWithin(head.items, rest.items, last, head.last, rest.last);
    }
  }

  lemma ConcatWithin(a: seq<Item>, b: seq<Item>, lo: Label, mid: Label, hi: Label)
    requires Within(a, lo, mid) && Within(b, mid, hi)
    ensures Within(a + b, lo, hi)
  {
    forall l: Label ensures MarkCount(a + b, l) <= if lo < l <= hi then 1 else 0 {
      MarkCountConcat(a, b, l);
    }
  }

  lemma GroupWithin(es: seq<Entry>, action: uint32, last: Label, o: Order)
    ensures var r := GroupItems(es, action, last, o); Within(r.items, last, r.last)
  {
    hide EntriesItems;
    var body := EntriesItems(es, last + 1, last + 2, last + 2, o);
    EntriesWithin(es, last + 1, last + 2, last + 2, o);
    var tail := [Mark(last + 1), Return(ReturnValue(action)), Mark(last + 2)];
    forall l: Label ensures MarkCount(body.items + tail, l) <= if last < l <= body.last then 1 else 0 {
      MarkCountConcat(body.items, tail, l);
      assert tail == [Mark(last + 1)] + [Return(ReturnValue(action))] + [Mark(last + 2)];
      MarkCountConcat([Mark(last + 1)] + [Return(ReturnValue(action))], [Mark(last + 2)], l);
      MarkCountConcat([Mark(last + 1)], [Return(ReturnValue(action))], l);
    }
  }

  /** A label from outside the range is not set by the items. */
  lemma {:induction false} GotoPast(a: seq<Item>, k: seq<Item>, l: Label, lo: Label, hi: Label)
    requires Within(a, lo, hi) && (l <= lo || l > hi)
    ensures !Marks(a, l) && Goto(a + k, l) == Goto(k, l)
  {
    MarkCountMarks(a, l);
    assert MarkCount(a, l) == 0;
    GotoPastUnmarked(a, k, l);
  }

  lemma {:induction false} GotoPastUnmarked(a: seq<Item>, k: seq<Item>, l: Label)
    requires !Marks(a, l)
    ensures Goto(a + k, l) == Goto(k, l)
  {
    if a == [] {
      assert a + k == k;
    } else {
      assert (a + k)[1..] == a[1..] + k;
      assert a[0] in a;
      GotoPastUnmarked(a[1..], k, l);
    }
  }

  // ---- running the items ----

  lemma ExecLoad(off: uint32, k: seq<Item>, acc: uint32, env: Env)
    requires Fetch(env, off, 4).Some?
    ensures Exec([Labelled.Load(off)] + k, acc, env) == Exec(k, Fetch(env, off, 4).value, env)
  {
    assert ([Labelled.Load(off)] + k)[1..] == k;
  }

  lemma ExecBranch(test: Test, val: uint32, onTrue: Label, onFalse: Label, k: seq<Item>, acc: uint32, env: Env)
    ensures Exec([Branch(test, val, onTrue, onFalse)] + k, acc, env)
            == Exec(Goto(k, if Passes(test, acc, val) then onTrue else onFalse), acc, env)
  {
    assert ([Branch(test, val, onTrue, onFalse)] + k)[1..] == k;
  }

  lemma ExecMark(l: Label, k: seq<Item>, acc: uint32, env: Env)
    ensures Exec([Mark(l)] + k, acc, env) == Exec(k, acc, env)
    ensures Goto([Mark(l)] + k, l) == k
    ensures forall m :: m != l ==> Goto([Mark(l)] + k, m) == Goto(k, m)
  {
    assert ([Mark(l)] + k)[1..] == k;
  }

  /** A test that goes on with the next instruction when it fails. */
  lemma ExecCheck(test: Test, val: uint32, onTrue: Label, onFalse: Label, k: seq<Item>, acc: uint32, env: Env)
    requires onTrue != onFalse
    ensures Exec(CheckTrue(test, val, onTrue, onFalse) + k, acc, env)
            == if Passes(test, acc, val) then Exec(Goto(k, onTrue), acc, env) else Exec(k, acc, env)
  {
    assert CheckTrue(test, val, onTrue, onFalse) + k == [Branch(test, val, onTrue, onFalse)] + ([Mark(onFalse)] + k);
    ExecBranch(test, val, onTrue, onFalse, [Mark(onFalse)] + k, acc, env);
    ExecMark(onFalse, k, acc, env);
  }

  /** Comparing the high half and, where that leaves it open, the low half decides each of the eight 64-bit operations. */
  lemma HalvesDecide(c: Condition, d: SeccompData)
    requires c.arg <= 5
    ensures var x := d.args[c.arg];
            var hi, lo, vhi, vlo := Hi(x), Lo(x), Hi(c.value), Lo(c.value);
            match c.op
            case Equal => Holds(c, d) <==> !Passes(Test.NotEqual, hi, vhi) && Passes(Test.Equal, lo, vlo)
            case NotEqual => Holds(c, d) <==> Passes(Test.NotEqual, hi, vhi) || Passes(Test.NotEqual, lo, vlo)
            case GreaterThan => Holds(c, d) <==>
              (Passes(Test.GreaterThan, hi, vhi) || (!Passes(Test.NotEqual, hi, vhi) && Passes(Test.GreaterThan, lo, vlo)))
            case GreaterOrEqual => Holds(c, d) <==>
              (Passes(Test.GreaterThan, hi, vhi) || (!Passes(Test.NotEqual, hi, vhi) && Passes(Test.GreaterOrEqual, lo, vlo)))
            case LessThan => Holds(c, d) <==>
              (Passes(Test.LessThan, hi, vhi) || (!Passes(Test.NotEqual, hi, vhi) && Passes(Test.LessThan, lo, vlo)))
            case LessOrEqual => Holds(c, d) <==>
              (Passes(Test.LessThan, hi, vhi) || (!Passes(Test.NotEqual, hi, vhi) && Passes(Test.LessOrEqual, lo, vlo)))
            case BitsSet => Holds(c, d) <==> Passes(Test.BitsSet, hi, vhi) || Passes(Test.BitsSet, lo, vlo)
            case BitsNotSet => Holds(c, d) <==> !Passes(Test.BitsSet, hi, vhi) && Passes(Test.BitsNotSet, lo, vlo)
  {
    HiLoBits(d.args[c.arg], c.value);
  }

  lemma ExecLoads(d: SeccompData, o: Order, arg: uint32, k: seq<Item>, acc: uint32)
    requires arg <= 5
    ensures Exec([Labelled.Load(HiOffset(arg, o))] + k, acc, EnvOf(d, o)) == Exec(k, Hi(d.args[arg]), EnvOf(d, o))
    ensures Exec([Labelled.Load(LoOffset(arg, o))] + k, acc, EnvOf(d, o)) == Exec(k, Lo(d.args[arg]), EnvOf(d, o))
  {
    hide Fetch, HiOffset, LoOffset, EnvOf;
    LoadArgument(d, o, arg);
    ExecLoad(HiOffset(arg, o), k, acc, EnvOf(d, o));
    ExecLoad(LoOffset(arg, o), k, acc, EnvOf(d, o));
  }

  /** One condition goes to `na` when it holds of the 64-bit argument and to `nc` otherwise. */
  lemma ConditionExec(c: Condition, na: Label, nc: Label, last: Label, d: SeccompData, o: Order, k: seq<Item>, acc: uint32)
    requires c.arg <= 5 && na <= last && nc <= last
    ensures Exec(ConditionItems(c, na, nc, last, o).items + k, acc, EnvOf(d, o))
            == Exec(Goto(k, if Holds(c, d) then na else nc), Leftover(c, d), EnvOf(d, o))
  {
    hide ConditionItems, EnvOf, Exec, Goto, HiOffset, LoOffset, CheckTrue, SharesBit, Hi, Lo;
    ConditionCases(c, na, nc, last, o);
    HalvesDecide(c, d);
    var env, hi, lo := EnvOf(d, o), Hi(d.args[c.arg]), Lo(d.args[c.arg]);
    var a, b := [Labelled.Load(HiOffset(c.arg, o))], [Labelled.Load(LoOffset(c.arg, o))];
    var br := [Branch(LowTest(c.op), Lo(c.value), na, nc)];
    var low := b + (br + k);
    ExecLoads(d, o, c.arg, br + k, hi);
    ExecBranch(LowTest(c.op), Lo(c.value), na, nc, k, lo, env);
    if c.op.Equal? || c.op.NotEqual? || c.op.BitsSet? || c.op.BitsNotSet? {
      var test := if c.op.BitsSet? || c.op.BitsNotSet? then Test.BitsSet else Test.NotEqual;
      var to := if c.op.Equal? || c.op.BitsNotSet? then nc else na;
      var check := CheckTrue(test, Hi(c.value), to, last + 1);
      assert a + check + b + br + k == a + (check + low);
      ExecLoads(d, o, c.arg, check + low, acc);
      ExecCheck(test, Hi(c.value), to, last + 1, low, hi, env);
      LowPast(b[0], br[0], k, to);
    } else {
      var test := if c.op.GreaterThan? || c.op.GreaterOrEqual? then Test.GreaterThan else Test.LessThan;
      var check, check' := CheckTrue(test, Hi(c.value), na, last + 1), CheckTrue(Test.NotEqual, Hi(c.value), nc, last + 2);
      assert a + check + check' + b + br + k == a + (check + (check' + low));
      ExecLoads(d, o, c.arg, check + (check' + low), acc);
      ExecCheck(test, Hi(c.value), na, last + 1, check' + low, hi, env);
      ExecCheck(Test.NotEqual, Hi(c.value), nc, last + 2, low, hi, env);
      LowPast(b[0], br[0], k, na);
      LowPast(b[0], br[0], k, nc);
      CheckPast(Test.NotEqual, Hi(c.value), nc, last + 2, low, na);
    }
  }

  lemma LowPast(x: Item, y: Item, k: seq<Item>, l: Label)
    requires !x.Mark? && !y.Mark?
    ensures Goto([x] + ([y] + k), l) == Goto(k, l)
  {
    assert [x] + ([y] + k) == [x, y] + k;
    GotoPastUnmarked([x, y], k, l);
  }

  lemma CheckPast(test: Test, val: uint32, onTrue: Label, onFalse: Label, k: seq<Item>, l: Label)
    requires l != onFalse
    ensures Goto(CheckTrue(test, val, onTrue, onFalse) + k, l) == Goto(k, l)
  {
    GotoPastUnmarked(CheckTrue(test, val, onTrue, onFalse), k, l);
  }

  lemma SetHoldsStep(cs: ConditionSet, d: SeccompData)
    requires cs != [] && ValidSet(cs)
    ensures ValidSet(cs[1..]) && (SetHolds(cs, d) <==> Holds(cs[0], d) && SetHolds(cs[1..], d))
  {
    assert forall i :: 1 <= i < |cs| ==> cs[i] == cs[1..][i - 1];
  }

  /** A set goes to `action` when all its conditions hold and to `nc` otherwise. */
  lemma {:induction false} SetExec(cs: ConditionSet, action: Label, nc: Label, last: Label, d: SeccompData, o: Order,
                                   k: seq<Item>, acc: uint32)
    requires cs != [] && ValidSet(cs) && action <= last && nc <= last
    ensures Exec(SetItems(cs, action, nc, last, o).items + k, acc, EnvOf(d, o))
            == Exec(Goto(k, if SetHolds(cs, d) then action else nc), SetLeftover(cs, d), EnvOf(d, o))
  {
    hide ConditionItems, EnvOf, Exec, Goto, SetHolds, Holds, Leftover, Within;
    SetHoldsStep(cs, d);
    NoConditions(d);
    var more := |cs| > 1;
    var last' := if more then last + 1 else last;
    var na := if more then last + 1 else action;
    var head := ConditionItems(cs[0], na, nc, last', o);
    var rest := SetItems(cs[1..], action, nc, head.last, o);
    ConditionWithin(cs[0], na, nc, last', o);
    WithinGrows(head.items, last', head.last);
    if more {
      var k' := [Mark(na)] + (rest.items + k);
      assert SetItems(cs, action, nc, last, o).items + k == head.items + k';
      ConditionExec(cs[0], na, nc, last', d, o, k', acc);
      ExecMark(na, rest.items + k, acc, EnvOf(d, o));
      if Holds(cs[0], d) {
        SetExec(cs[1..], action, nc, head.last, d, o, k, Leftover(cs[0], d));
      } else {
        SetWithin(cs[1..], action, nc, head.last, o);
        GotoPast(rest.items, k, nc, head.last, rest.last);
      }
    } else {
      assert cs[1..] == [];
      assert SetItems(cs, action, nc, last, o).items + k == head.items + k;
      ConditionExec(cs[0], na, nc, last', d, o, k, acc);
    }
  }

  lemma NoConditions(d: SeccompData)
    ensures SetHolds([], d)
  {}

  lemma WithinGrows(items: seq<Item>, lo: Label, hi: Label)
    requires Within(items, lo, hi)
    ensures lo <= hi
  {}

  lemma SomeSetStep(sets: seq<ConditionSet>, d: SeccompData)
    requires sets != [] && ValidSets(sets)
    ensures ValidSets(sets[1..]) && ValidSet(sets[0])
    ensures SomeSetHolds(sets, d) <==> SetHolds(sets[0], d) || SomeSetHolds(sets[1..], d)
  {
    assert forall i :: 1 <= i < |sets| ==> sets[i] == sets[1..][i - 1];
    if i :| 0 <= i < |sets[1..]| && SetHolds(sets[1..][i], d) {
      assert SetHolds(sets[i + 1], d);
    }
    if i :| 0 <= i < |sets| && SetHolds(sets[i], d) {
      if i > 0 {
        assert SetHolds(sets[1..][i - 1], d);
      }
    }
  }

  /** Alternative sets go to `action` when one holds and to `next` otherwise. */
  lemma {:induction false} SetsExec(sets: seq<ConditionSet>, action: Label, next: Label, last: Label, d: SeccompData, o: Order,
                                    k: seq<Item>, acc: uint32) returns (left: uint32)
    requires sets != [] && ValidSets(sets) && NonemptySets(sets) && action <= last && next <= last
    ensures Exec(SetsItems(sets, action, next, last, o).items + k, acc, EnvOf(d, o))
            == Exec(Goto(k, if SomeSetHolds(sets, d) then action else next), left, EnvOf(d, o))
    ensures !SomeSetHolds(sets, d) ==> left == SetLeftover(sets[|sets| - 1], d)
  {
    hide SetItems, EnvOf, Exec, Goto, SetHolds, SomeSetHolds, SetLeftover, Within;
    SomeSetStep(sets, d);
    var more := |sets| > 1;
    var last' := if more then last + 1 else last;
    var nc := if more then last + 1 else next;
    var head := SetItems(sets[0], action, nc, last', o);
    var rest := SetsItems(sets[1..], action, next, head.last, o);
    SetWithin(sets[0], action, nc, last', o);
    WithinGrows(head.items, last', head.last);
    left := SetLeftover(sets[0], d);
    if more {
      var k' := [Mark(nc)] + (rest.items + k);
      assert SetsItems(sets, action, next, last, o).items + k == head.items + k';
      SetExec(sets[0], action, nc, last', d, o, k', acc);
      ExecMark(nc, rest.items + k, acc, EnvOf(d, o));
      if SetHolds(sets[0], d) {
        SetsWithin(sets[1..], action, next, head.last, o);
        GotoPast(rest.items, k, action, head.last, rest.last);
      } else {
        left := SetsExec(sets[1..], action, next, head.last, d, o, k, left);
      }
    } else {
      assert sets[1..] == [];
      NoSets(d);
      assert SetsItems(sets, action, next, last, o).items + k == head.items + k;
      SetExec(sets[0], action, nc, last', d, o, k, acc);
    }
  }

  lemma NoSets(d: SeccompData)
    ensures !SomeSetHolds([], d)
  {}

  /** A conditional block has exactly two exits: with the right number in the accumulator it reaches `action` when some set
      has all its conditions true, and otherwise what follows; with another number it reaches what follows untouched. */
  lemma EntryExec(e: Entry, more: bool, action: Label, end: Label, last: Label, d: SeccompData, o: Order,
                  k: seq<Item>, acc: uint32) returns (left: uint32)
    requires ValidSets(e.conditions) && NonemptySets(e.conditions) && action <= last && end <= last
    ensures Exec(EntryItems(e, more, action, end, last, o).items + k, acc, EnvOf(d, o))
            == match ThreadEntry(e, acc, d)
               case Matched => Exec(Goto(k, action), left, EnvOf(d, o))
               case Missed(a) => Exec(if more then k else Goto(k, end), a, EnvOf(d, o))
  {
    hide SetsItems, EnvOf, Exec, Goto, SomeSetHolds, SetLeftover, Within, CheckTrue;
    var env := EnvOf(d, o);
    left := acc;
    if e.conditions == [] {
      if more {
        ExecCheck(Test.Equal, e.num, action, last + 1, k, acc, env);
      } else {
        ExecBranch(Test.Equal, e.num, action, end, k, acc, env);
      }
    } else {
      var next := if more then last + 1 else end;
      var first := (if more then last + 1 else last) + 1;
      var check := CheckTrue(Test.NotEqual, e.num, next, first);
      var sets := SetsItems(e.conditions, action, next, first, o);
      var k' := MarkIf(more, next) + k;
      assert check + sets.items + MarkIf(more, next) + k == check + (sets.items + k');
      ExecCheck(Test.NotEqual, e.num, next, first, sets.items + k', acc, env);
      left := SetsExec(e.conditions, action, next, first, d, o, k', acc);
      SetsWithin(e.conditions, action, next, first, o);
      GotoPast(sets.items, k', next, first, sets.last);
      if more {
        ExecMark(next, k, acc, env);
      } else {
        assert k' == k;
      }
    }
  }

  /** The comparisons of a group go to `action` at the first match and to `end` when there is none. */
  lemma {:induction false} EntriesExec(es: seq<Entry>, action: Label, end: Label, last: Label, d: SeccompData, o: Order,
                                       k: seq<Item>, acc: uint32) returns (left: uint32)
    requires es != [] && ValidEntries(es) && NonemptyEntries(es) && action <= last && end <= last
    ensures Exec(EntriesItems(es, action, end, last, o).items + k, acc, EnvOf(d, o))
            == match ThreadEntries(es, acc, d)
               case Matched => Exec(Goto(k, action), left, EnvOf(d, o))
               case Missed(a) => Exec(Goto(k, end), a, EnvOf(d, o))
  {
    hide EntryItems, EnvOf, Exec, Goto, ThreadEntry, Within;
    var more := |es| > 1;
    var head := EntryItems(es[0], more, action, end, last, o);
    var rest := EntriesItems(es[1..], action, end, head.last, o);
    assert EntriesItems(es, action, end, last, o).items + k == head.items + (rest.items + k);
    EntryWithin(es[0], more, action, end, last, o);
    WithinGrows(head.items, last, head.last);
    EntriesWithin(es[1..], action, end, head.last, o);
    left := EntryExec(es[0], more, action, end, last, d, o, rest.items + k, acc);
    GotoPast(rest.items, k, action, head.last, rest.last);
    GotoPast(rest.items, k, end, head.last, rest.last);
    if more && ThreadEntry(es[0], acc, d).Missed? {
      left := EntriesExec(es[1..], action, end, head.last, d, o, k, ThreadEntry(es[0], acc, d).acc);
    }
  }

  /** A group returns its action at the first match and otherwise falls through to what follows, with the accumulator
      the evaluator predicts. */
  lemma GroupExec(es: seq<Entry>, action: uint32, last: Label, d: SeccompData, o: Order, k: seq<Item>, acc: uint32)
    requires es != [] && ValidEntries(es) && NonemptyEntries(es)
    ensures Exec(GroupItems(es, action, last, o).items + k, acc, EnvOf(d, o))
            == match ThreadEntries(es, acc, d)
               case Matched => Verdict(ReturnValue(action))
               case Missed(a) => Exec(k, a, EnvOf(d, o))
  {
    hide EntriesItems, EnvOf, ThreadEntries;
    var body := EntriesItems(es, last + 1, last + 2, last + 2, o);
    var ret := [Return(ReturnValue(action))] + ([Mark(last + 2)] + k);
    var tail := [Mark(last + 1)] + ret;
    assert GroupItems(es, action, last, o).items + k == body.items + tail;
    var left := EntriesExec(es, last + 1, last + 2, last + 2, d, o, tail, acc);
    ExecMark(last + 1, ret, acc, EnvOf(d, o));
    assert ret[1..] == [Mark(last + 2)] + k;
    ExecMark(last + 2, k, acc, EnvOf(d, o));
  }
}
