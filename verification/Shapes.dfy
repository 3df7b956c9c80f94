/** The shape of emitted code that makes its resolution safe, as a property of the list of builder calls. */
module Shapes {
  import opened Results
  import opened Words
  import opened Bpf
  import opened Labelled
  import opened Policies
  import opened Codegen
  import opened CodegenMeaning

  predicate HasReturn(items: seq<Item>) { exists k :: 0 <= k < |items| && items[k].Return? }

  /** How many instructions lie before the first return. */
  function RetDist(items: seq<Item>): nat {
    if items == [] || items[0].Return? then 0 else Emits(items[0]) + RetDist(items[1..])
  }

  /** The label set immediately before the first return. */
  function ExitLabel(items: seq<Item>): Option<Label> {
    if |items| < 2 || items[0].Return? then None
    else if items[0].Mark? && items[1].Return? then Some(items[0].name)
    else ExitLabel(items[1..])
  }

  /** The next instruction is a load. */
  predicate LoadNext(items: seq<Item>) {
    items != [] && (items[0].Load? || (items[0].Mark? && LoadNext(items[1..])))
  }

  predicate LeavesBy(items: seq<Item>, l: Label) {
    Marks(items, l) && Dist(items, l) == RetDist(items) && ExitLabel(items) == Some(l)
  }

  /** A branch to `l`, with `items` behind it and `other` as its second label. */
  predicate GoodLabel(items: seq<Item>, l: Label, other: Label) {
    || LeavesBy(items, l)
    || (Marks(items, l) && Dist(items, l) != RetDist(items) && Dist(items, l) <= RetDist(items) + 1
        && (Dist(items, l) <= 252 || (Dist(items, l) <= 254 && LoadNext(items) && Dist(items, other) != RetDist(items))))
  }

  predicate GoodHead(items: seq<Item>)
    requires items != []
  {
    match items[0]
    case Branch(_, _, t, f) =>
      var rest := items[1..];
      HasReturn(rest) && GoodLabel(rest, t, f) && GoodLabel(rest, f, t) && Dist(rest, t) != Dist(rest, f)
    case Load(_) => |items| > 1 && items[1].Branch?
    case Return(_) => true
    case Mark(_) => true
  }

  predicate Good(items: seq<Item>) { items == [] || (GoodHead(items) && Good(items[1..])) }

  // ---- putting code in front ----

  /** Code without a return, put in front of `k`. */
  lemma {:induction false} InFront(a: seq<Item>, k: seq<Item>, l: Label)
    requires !HasReturn(a) && HasReturn(k) && !k[0].Return? && !Marks(a, l)
    ensures HasReturn(a + k) && !(a + k)[0].Return?
    ensures RetDist(a + k) == Size(a) + RetDist(k)
    ensures ExitLabel(a + k) == ExitLabel(k)
    ensures Marks(a + k, l) <==> Marks(k, l)
    ensures Dist(a + k, l) == Size(a) + Dist(k, l)
  {
    if a == [] {
      assert a + k == k;
    } else {
      var rest := a[1..];
      assert (a + k)[1..] == rest + k;
      assert forall i :: 0 <= i < |rest| ==> rest[i] == a[i + 1];
      assert a[0] in a;
      InFront(rest, k, l);
      var i :| 0 <= i < |rest + k| && (rest + k)[i].Return?;
      assert (a + k)[i + 1].Return?;
    }
  }

  lemma ConsReturn(x: Item, k: seq<Item>)
    requires HasReturn(k)
    ensures HasReturn([x] + k)
  {
    var i :| 0 <= i < |k| && k[i].Return?;
    assert ([x] + k)[i + 1].Return?;
  }

  lemma ConsGood(x: Item, k: seq<Item>)
    requires Good(k) && GoodHead([x] + k)
    ensures Good([x] + k)
  {
    assert ([x] + k)[1..] == k;
  }

  lemma MarkInFront(m: Label, k: seq<Item>, l: Label)
    requires HasReturn(k) && !k[0].Return?
    ensures var r := [Mark(m)] + k;
            && HasReturn(r) && !r[0].Return? && RetDist(r) == RetDist(k) && ExitLabel(r) == ExitLabel(k)
            && (Good(k) ==> Good(r))
            && (if l == m then Marks(r, l) && Dist(r, l) == 0 else (Marks(r, l) <==> Marks(k, l)) && Dist(r, l) == Dist(k, l))
            && (LoadNext(k) ==> LoadNext(r))
  {
    ConsReturn(Mark(m), k);
    assert ([Mark(m)] + k)[1..] == k;
    assert ([Mark(m)] + k)[0] == Mark(m);
  }

  /** A place where the instructions end and `action`, `nc` are still ahead. */
  predicate Ahead(k: seq<Item>) { HasReturn(k) && !k[0].Return? && Good(k) }

  /** `l` is short enough to be reached across `slack` more instructions, or it is the way out. */
  predicate Fit(k: seq<Item>, l: Label, slack: nat) {
    || LeavesBy(k, l)
    || (Marks(k, l) && Dist(k, l) != RetDist(k) && Dist(k, l) <= RetDist(k) + 1 && Dist(k, l) + slack <= 254)
  }

  // ---- one condition ----

  lemma BranchInFront(br: Item, k: seq<Item>, l: Label)
    requires br.Branch? && Ahead(k) && GoodLabel(k, br.onTrue, br.onFalse) && GoodLabel(k, br.onFalse, br.onTrue)
    requires Dist(k, br.onTrue) != Dist(k, br.onFalse)
    ensures var r := [br] + k;
            && Ahead(r) && RetDist(r) == 1 + RetDist(k) && ExitLabel(r) == ExitLabel(k)
            && (Marks(r, l) <==> Marks(k, l)) && Dist(r, l) == 1 + Dist(k, l)
  {
    assert ([br] + k)[1..] == k;
    assert [br][1..] == [];
    InFront([br], k, l);
    ConsGood(br, k);
  }

  /** A load and the branch it feeds. */
  lemma LoadBranchInFront(ld: Item, br: Item, k: seq<Item>, l: Label)
    requires ld.Load? && br.Branch? && Ahead(k) && GoodLabel(k, br.onTrue, br.onFalse) && GoodLabel(k, br.onFalse, br.onTrue)
    requires Dist(k, br.onTrue) != Dist(k, br.onFalse)
    ensures var r := [ld] + ([br] + k);
            && Ahead(r) && RetDist(r) == 2 + RetDist(k) && ExitLabel(r) == ExitLabel(k)
            && (Marks(r, l) <==> Marks(k, l)) && Dist(r, l) == 2 + Dist(k, l) && LoadNext(r)
  {
    BranchInFront(br, k, l);
    var b := [br] + k;
    assert ([ld] + b)[1..] == b;
    assert [ld][1..] == [];
    InFront([ld], b, l);
    ConsGood(ld, b);
  }

  predicate CheckLabel(k: seq<Item>, to: Label) {
    || LeavesBy(k, to)
    || (Marks(k, to) && Dist(k, to) != RetDist(k) && Dist(k, to) <= RetDist(k) + 1
        && (Dist(k, to) <= 252 || (Dist(k, to) <= 254 && LoadNext(k))))
  }

  /** A check that goes on with the next instruction when it fails. */
  lemma CheckInFront(test: Test, val: uint32, to: Label, next: Label, k: seq<Item>, l: Label)
    requires Ahead(k) && RetDist(k) > 0 && to != next && l != next && CheckLabel(k, to) && Dist(k, to) > 0
    ensures var r := CheckTrue(test, val, to, next) + k;
            && Ahead(r) && RetDist(r) == 1 + RetDist(k) && ExitLabel(r) == ExitLabel(k)
            && (Marks(r, l) <==> Marks(k, l)) && Dist(r, l) == 1 + Dist(k, l)
  {
    var m, br := [Mark(next)] + k, Branch(test, val, to, next);
    MarkInFront(next, k, to);
    MarkInFront(next, k, next);
    MarkInFront(next, k, l);
    BranchInFront(br, m, l);
    assert CheckTrue(test, val, to, next) + k == [br] + m;
  }

  /** `r` is `n` instructions in front of `k`, none of which hides `l`. */
  predicate Before(r: seq<Item>, k: seq<Item>, n: nat, l: Label) {
    && Ahead(r) && RetDist(r) == n + RetDist(k) && ExitLabel(r) == ExitLabel(k)
    && (Marks(r, l) <==> Marks(k, l)) && Dist(r, l) == n + Dist(k, l)
  }

  function ConditionSize(c: Condition): nat {
    if c.op.Equal? || c.op.NotEqual? || c.op.BitsSet? || c.op.BitsNotSet? then 4 else 5
  }

  /** A load, a check on it, and more code in which the check's way out is near. */
  lemma LoadCheckInFront(ld: Item, test: Test, val: uint32, to: Label, next: Label, k: seq<Item>, l: Label)
    requires ld.Load? && Ahead(k) && RetDist(k) > 0 && to != next && l != next && Dist(k, to) > 0
    requires Fit(k, to, 2)
    ensures var r := [ld] + (CheckTrue(test, val, to, next) + k); Before(r, k, 2, l) && LoadNext(r)
  {
    hide Good, HasReturn, RetDist, ExitLabel, Dist, Marks, LoadNext;
    var m, br := [Mark(next)] + k, Branch(test, val, to, next);
    MarkInFront(next, k, to);
    MarkInFront(next, k, next);
    MarkInFront(next, k, l);
    LoadBranchInFront(ld, br, m, l);
    assert CheckTrue(test, val, to, next) + k == [br] + m;
  }

  lemma ConditionInFront(c: Condition, na: Label, nc: Label, last: Label, o: Order, k: seq<Item>, l: Label)
    requires Ahead(k) && Fit(k, na, ConditionSize(c)) && Fit(k, nc, ConditionSize(c)) && Dist(k, na) != Dist(k, nc)
    requires na <= last && nc <= last && l <= last
    ensures var r := ConditionItems(c, na, nc, last, o).items + k; Before(r, k, ConditionSize(c), l) && LoadNext(r)
  {
    hide ConditionItems, CheckTrue, HiOffset, LoOffset, Good, ExitLabel, RetDist, Dist, HasReturn, Marks, LoadNext, Hi, Lo;
    ConditionCases(c, na, nc, last, o);
    var a, b := Labelled.Load(HiOffset(c.arg, o)), Labelled.Load(LoOffset(c.arg, o));
    var br := Branch(LowTest(c.op), Lo(c.value), na, nc);
    var low := [b] + ([br] + k);
    LoadBranchInFront(b, br, k, l);
    LoadBranchInFront(b, br, k, na);
    LoadBranchInFront(b, br, k, nc);
    if ConditionSize(c) == 4 {
      var test := if c.op.BitsSet? || c.op.BitsNotSet? then Test.BitsSet else Test.NotEqual;
      var to := if c.op.Equal? || c.op.BitsNotSet? then nc else na;
      LoadCheckInFront(a, test, Hi(c.value), to, last + 1, low, l);
      var check := CheckTrue(test, Hi(c.value), to, last + 1);
      assert [a] + check + [b] + [br] + k == [a] + (check + low);
    } else {
      var test := if c.op.GreaterThan? || c.op.GreaterOrEqual? then Test.GreaterThan else Test.LessThan;
      var check, check' := CheckTrue(test, Hi(c.value), na, last + 1), CheckTrue(Test.NotEqual, Hi(c.value), nc, last + 2);
      CheckInFront(Test.NotEqual, Hi(c.value), nc, last + 2, low, l);
      CheckInFront(Test.NotEqual, Hi(c.value), nc, last + 2, low, na);
      LoadCheckInFront(a, test, Hi(c.value), na, last + 1, check' + low, l);
      assert [a] + check + check' + [b] + [br] + k == [a] + (check + (check' + low));
    }
  }

  // ---- sets, entries, groups ----

  function SetSize(cs: ConditionSet): nat { if cs == [] then 0 else ConditionSize(cs[0]) + SetSize(cs[1..]) }

  function SetsSize(sets: seq<ConditionSet>): nat { if sets == [] then 0 else SetSize(sets[0]) + SetsSize(sets[1..]) }

  /** How many instructions an entry takes. */
  function BlockSize(e: Entry): nat { 1 + SetsSize(e.conditions) }

  lemma FitLess(k: seq<Item>, l: Label, slack: nat, less: nat)
    requires Fit(k, l, slack) && less <= slack
    ensures Fit(k, l, less)
  {}

  /** What fits in front of `k` across `n + slack` fits in front of the longer code across `slack`. */
  lemma FitBefore(r: seq<Item>, k: seq<Item>, n: nat, l: Label, slack: nat)
    requires Before(r, k, n, l) && Fit(k, l, n + slack)
    ensures Fit(r, l, slack)
  {}

  lemma BeforeBefore(r: seq<Item>, q: seq<Item>, k: seq<Item>, m: nat, n: nat, l: Label)
    requires Before(r, q, m, l) && Before(q, k, n, l)
    ensures Before(r, k, m + n, l)
  {}

  lemma BeforeMark(x: Label, k: seq<Item>, l: Label)
    requires Ahead(k) && l != x
    ensures Before([Mark(x)] + k, k, 0, l)
  {
    MarkInFront(x, k, l);
  }

  /** A label just set is near. */
  lemma FitsHere(x: Label, k: seq<Item>, slack: nat)
    requires Ahead(k) && RetDist(k) > 0 && slack <= 254
    ensures Fit([Mark(x)] + k, x, slack) && Dist([Mark(x)] + k, x) == 0
  {
    MarkInFront(x, k, x);
  }

  lemma {:induction false} SetInFront(cs: ConditionSet, action: Label, nc: Label, last: Label, o: Order, k: seq<Item>, l: Label)
    requires cs != [] && Ahead(k) && LeavesBy(k, action) && Fit(k, nc, SetSize(cs)) && Dist(k, action) != Dist(k, nc)
    requires action <= last && nc <= last && l <= last
    ensures var r := SetItems(cs, action, nc, last, o).items + k; Before(r, k, SetSize(cs), l) && LoadNext(r)
    ensures SetSize(cs) >= 4
  {
    hide ConditionItems, Ahead, Before, Fit, LeavesBy, LoadNext, Good, ExitLabel, RetDist, Dist, HasReturn, Marks, Within;
    var more := |cs| > 1;
    var last' := if more then last + 1 else last;
    var na := if more then last + 1 else action;
    var n := ConditionSize(cs[0]);
    var head := ConditionItems(cs[0], na, nc, last', o);
    var rest := SetItems(cs[1..], action, nc, head.last, o);
    ConditionWithin(cs[0], na, nc, last', o);
    WithinGrows(head.items, last', head.last);
    ExitFits(k, action, n);
    if more {
      var q := rest.items + k;
      var k' := [Mark(na)] + q;
      assert SetItems(cs, action, nc, last, o).items + k == head.items + k';
      FitLess(k, nc, SetSize(cs), SetSize(cs[1..]));
      SetInFront(cs[1..], action, nc, head.last, o, k, l);
      SetInFront(cs[1..], action, nc, head.last, o, k, nc);
      BeforeGives(q, k, SetSize(cs[1..]), nc);
      FitsHere(na, q, n);
      BeforeMark(na, q, l);
      BeforeMark(na, q, nc);
      FitBefore(q, k, SetSize(cs[1..]), nc, n);
      FitBefore(k', q, 0, nc, n);
      BeforeGives(k', q, 0, nc);
      ConditionInFront(cs[0], na, nc, last', o, k', l);
      BeforeBefore(k', q, k, 0, SetSize(cs[1..]), l);
      BeforeBefore(head.items + k', k', k, n, SetSize(cs[1..]), l);
    } else {
      assert cs[1..] == [] && rest.items == [];
      assert SetItems(cs, action, nc, last, o).items + k == head.items + k;
      ConditionInFront(cs[0], na, nc, last', o, k, l);
    }
  }

  lemma ExitFits(k: seq<Item>, l: Label, slack: nat)
    requires LeavesBy(k, l)
    ensures Fit(k, l, slack)
  {}

  lemma BeforeGives(r: seq<Item>, k: seq<Item>, n: nat, l: Label)
    requires Before(r, k, n, l)
    ensures Ahead(r) && RetDist(r) == n + RetDist(k) && Dist(r, l) == n + Dist(k, l)
    ensures LeavesBy(k, l) ==> LeavesBy(r, l)
  {}

  lemma {:induction false} SetsInFront(sets: seq<ConditionSet>, action: Label, next: Label, last: Label, o: Order,
                                       k: seq<Item>, l: Label)
    requires sets != [] && NonemptySets(sets) && SetsSize(sets) <= 254
    requires Ahead(k) && LeavesBy(k, action) && Fit(k, next, SetsSize(sets)) && Dist(k, action) != Dist(k, next)
    requires action <= last && next <= last && l <= last
    ensures var r := SetsItems(sets, action, next, last, o).items + k; Before(r, k, SetsSize(sets), l) && LoadNext(r)
    ensures SetsSize(sets) >= 4
  {
    hide SetItems, Ahead, Before, Fit, LeavesBy, LoadNext, Good, ExitLabel, RetDist, Dist, HasReturn, Marks, Within;
    var more := |sets| > 1;
    var last' := if more then last + 1 else last;
    var nc := if more then last + 1 else next;
    var n, m := SetSize(sets[0]), SetsSize(sets[1..]);
    var head := SetItems(sets[0], action, nc, last', o);
    var rest := SetsItems(sets[1..], action, next, head.last, o);
    SetWithin(sets[0], action, nc, last', o);
    WithinGrows(head.items, last', head.last);
    if more {
      var q := rest.items + k;
      var k' := [Mark(nc)] + q;
      assert SetsItems(sets, action, next, last, o).items + k == head.items + k';
      FitLess(k, next, SetsSize(sets), m);
      SetsInFront(sets[1..], action, next, head.last, o, k, l);
      SetsInFront(sets[1..], action, next, head.last, o, k, action);
      BeforeGives(q, k, m, action);
      FitsHere(nc, q, n);
      BeforeMark(nc, q, l);
      BeforeMark(nc, q, action);
      BeforeGives(k', q, 0, action);
      SetInFront(sets[0], action, nc, last', o, k', l);
      BeforeBefore(k', q, k, 0, m, l);
      BeforeBefore(head.items + k', k', k, n, m, l);
    } else {
      assert sets[1..] == [] && rest.items == [];
      assert SetsItems(sets, action, next, last, o).items + k == head.items + k;
      SetInFront(sets[0], action, nc, last', o, k, l);
    }
  }

  /** One entry: when more follow, its way on is right behind it; otherwise it is `end`, just behind the return. */
  lemma EntryInFront(e: Entry, more: bool, action: Label, end: Label, last: Label, o: Order, k: seq<Item>, l: Label)
    requires NonemptySets(e.conditions) && BlockSize(e) <= 254
    requires Ahead(k) && LeavesBy(k, action) && action <= last && end <= last && l <= last
    requires if more then RetDist(k) > 0 else RetDist(k) == 0 && Marks(k, end) && Dist(k, end) == 1
    ensures Before(EntryItems(e, more, action, end, last, o).items + k, k, BlockSize(e), l)
  {
    hide SetsItems, Good, ExitLabel, RetDist, Dist, HasReturn, Marks, LoadNext;
    if e.conditions == [] {
      if more {
        CheckInFront(Test.Equal, e.num, action, last + 1, k, l);
      } else {
        BranchInFront(Branch(Test.Equal, e.num, action, end), k, l);
      }
    } else {
      ConditionalInFront(e, more, action, end, last, o, k, l);
    }
  }

  lemma ConditionalInFront(e: Entry, more: bool, action: Label, end: Label, last: Label, o: Order, k: seq<Item>, l: Label)
    requires e.conditions != [] && NonemptySets(e.conditions) && BlockSize(e) <= 254
    requires Ahead(k) && LeavesBy(k, action) && action <= last && end <= last && l <= last
    requires if more then RetDist(k) > 0 else RetDist(k) == 0 && Marks(k, end) && Dist(k, end) == 1
    ensures Before(EntryItems(e, more, action, end, last, o).items + k, k, BlockSize(e), l)
  {
    hide SetsItems, Good, ExitLabel, RetDist, Dist, HasReturn, Marks, LoadNext, Ahead, CheckTrue, Before;
    var next := if more then last + 1 else end;
    var first := (if more then last + 1 else last) + 1;
    var n := SetsSize(e.conditions);
    var sets := SetsItems(e.conditions, action, next, first, o);
    var k' := MarkIf(more, next) + k;
    var check := CheckTrue(Test.NotEqual, e.num, next, first);
    assert check + sets.items + MarkIf(more, next) + k == check + (sets.items + k');
    if more {
      FitsHere(next, k, n);
      BeforeMark(next, k, l);
      BeforeMark(next, k, action);
      BeforeGives(k', k, 0, action);
      FitsHereMarks(next, k);
    } else {
      assert k' == k;
      BeforeSelf(k, l);
    }
    SetsInFront(e.conditions, action, next, first, o, k', l);
    SetsInFront(e.conditions, action, next, first, o, k', next);
    BeforeGives(sets.items + k', k', n, next);
    NumberCheckFits(sets.items + k', k', n, next);
    CheckInFront(Test.NotEqual, e.num, next, first, sets.items + k', l);
    BeforeCheck(check + (sets.items + k'), sets.items + k', l);
    BeforeBefore(sets.items + k', k', k, n, 0, l);
    BeforeBefore(check + (sets.items + k'), sets.items + k', k, 1, n, l);
  }

  lemma FitsHereMarks(x: Label, k: seq<Item>)
    ensures Marks([Mark(x)] + k, x)
  {
    assert ([Mark(x)] + k)[0] == Mark(x);
  }

  lemma BeforeSelf(k: seq<Item>, l: Label)
    requires Ahead(k)
    ensures Before(k, k, 0, l)
  {}

  lemma BeforeCheck(r: seq<Item>, k: seq<Item>, l: Label)
    requires Ahead(r) && RetDist(r) == 1 + RetDist(k) && ExitLabel(r) == ExitLabel(k)
    requires (Marks(r, l) <==> Marks(k, l)) && Dist(r, l) == 1 + Dist(k, l)
    ensures Before(r, k, 1, l)
  {}

  /** The number check may reach across a block of up to 254 instructions because a load follows it. */
  lemma NumberCheckFits(r: seq<Item>, k: seq<Item>, n: nat, l: Label)
    requires Before(r, k, n, l) && LoadNext(r) && 4 <= n <= 253
    requires if RetDist(k) > 0 then Dist(k, l) == 0 && Marks(k, l) else Dist(k, l) == 1 && Marks(k, l)
    ensures CheckLabel(r, l) && RetDist(r) > 0 && Dist(r, l) > 0
  {}

  lemma {:induction false} EntriesInFront(es: seq<Entry>, action: Label, end: Label, last: Label, o: Order, k: seq<Item>)
    requires es != [] && NonemptyEntries(es) && forall i :: 0 <= i < |es| ==> BlockSize(es[i]) <= 254
    requires Ahead(k) && LeavesBy(k, action) && action <= last && end <= last
    requires RetDist(k) == 0 && Marks(k, end) && Dist(k, end) == 1
    ensures Before(EntriesItems(es, action, end, last, o).items + k, k, EntriesSize(es), action)
    ensures EntriesSize(es) > 0
  {
    hide EntryItems, Before, Ahead, LeavesBy, Good, ExitLabel, RetDist, Dist, HasReturn, Marks, Within;
    var more := |es| > 1;
    var head := EntryItems(es[0], more, action, end, last, o);
    var rest := EntriesItems(es[1..], action, end, head.last, o);
    var q := rest.items + k;
    assert EntriesItems(es, action, end, last, o).items + k == head.items + q;
    EntryWithin(es[0], more, action, end, last, o);
    WithinGrows(head.items, last, head.last);
    if more {
      EntriesInFront(es[1..], action, end, head.last, o, k);
      BeforeGives(q, k, EntriesSize(es[1..]), action);
      EntryInFront(es[0], more, action, end, last, o, q, action);
      BeforeBefore(head.items + q, q, k, BlockSize(es[0]), EntriesSize(es[1..]), action);
    } else {
      assert es[1..] == [] && q == k;
      EntryInFront(es[0], more, action, end, last, o, k, action);
    }
  }

  function EntriesSize(es: seq<Entry>): nat { if es == [] then 0 else BlockSize(es[0]) + EntriesSize(es[1..]) }

  /** The tail of a group: the action's return, set just before by its label, and the next group's label just behind. */
  lemma TailAhead(action: Label, ret: uint32, end: Label, k: seq<Item>)
    requires Good(k) && action != end
    ensures var t := [Mark(action), Return(ret), Mark(end)] + k;
            && Ahead(t) && LeavesBy(t, action) && RetDist(t) == 0 && Marks(t, end) && Dist(t, end) == 1
  {
    var t := [Mark(action), Return(ret), Mark(end)] + k;
    assert t[1..] == [Return(ret)] + ([Mark(end)] + k);
    assert t[1..][1..] == [Mark(end)] + k;
    assert t[1..][1..][1..] == k;
    assert t[0] == Mark(action) && t[1] == Return(ret) && t[2] == Mark(end);
    assert Dist(t[1..][1..], end) == 0;
    assert Dist(t[1..], end) == 1;
  }

  lemma GroupGood(es: seq<Entry>, action: uint32, last: Label, o: Order, k: seq<Item>)
    requires es != [] && NonemptyEntries(es) && forall i :: 0 <= i < |es| ==> BlockSize(es[i]) <= 254
    requires Good(k)
    ensures Good(GroupItems(es, action, last, o).items + k)
  {
    hide EntriesItems, ExitLabel, RetDist, Dist, HasReturn, Marks, LeavesBy, Good;
    var body := EntriesItems(es, last + 1, last + 2, last + 2, o);
    var tail := [Mark(last + 1), Return(ReturnValue(action)), Mark(last + 2)];
    TailAhead(last + 1, ReturnValue(action), last + 2, k);
    assert GroupItems(es, action, last, o).items + k == body.items + (tail + k);
    EntriesInFront(es, last + 1, last + 2, last + 2, o, tail + k);
  }
}
