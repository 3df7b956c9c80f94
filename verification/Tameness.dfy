/** Well-shaped builder calls leave tame tables that `Assemble` can resolve. */
module Tameness {
  import opened Words
  import opened Bpf
  import opened Labelled
  import opened Assembler
  import opened Resolution
  import opened Policies
  import opened Codegen
  import opened CodegenMeaning
  import opened Shapes

  /** The whole program of a policy: well-shaped, every label set at most once, ended by a return. */
  ghost predicate Shaped(items: seq<Item>) {
    && Good(items)
    && (forall l: Label :: MarkCount(items, l) <= 1)
    && items != [] && items[|items| - 1].Return?
  }

  // ---- from an index to the builder call that made it ----

  lemma {:induction false} InstrSplit(items: seq<Item>, i: Index) returns (pre: seq<Item>, it: Item, rest: seq<Item>)
    requires i < Size(items)
    ensures items == pre + [it] + rest && !it.Mark? && Size(pre) == i && InstrsOf(items)[i] == InstrOf(it)
  {
    var x, tail := items[0], items[1..];
    if !x.Mark? && i == 0 {
      pre, it, rest := [], x, tail;
    } else {
      pre, it, rest := InstrSplit(tail, i - Emits(x));
      assert items == [x] + tail == ([x] + pre) + [it] + rest;
      assert ([x] + pre)[1..] == pre;
      pre := [x] + pre;
    }
  }

  lemma {:induction false} JumpIndex(items: seq<Item>, base: Index, q: nat) returns (p: nat)
    requires q < |JumpsOf(items, base)|
    ensures p < |items| && items[p].Branch?
    ensures JumpsOf(items, base)[q] == JumpRef(base + Size(items[..p]), items[p].onTrue, items[p].onFalse)
  {
    var x, tail := items[0], items[1..];
    JumpsStep(items, base);
    EmptySize();
    hide Size, JumpsOf;
    if x.Branch? && q == 0 {
      p := 0;
    } else {
      var n := JumpIndex(tail, base + Emits(x), if x.Branch? then q - 1 else q);
      p := n + 1;
      SizeStep(items[..p]);
      assert items[..p][1..] == tail[..n];
    }
  }

  lemma JumpSplit(items: seq<Item>, base: Index, q: nat) returns (pre: seq<Item>, br: Item, rest: seq<Item>)
    requires q < |JumpsOf(items, base)|
    ensures items == pre + [br] + rest && br.Branch?
    ensures JumpsOf(items, base)[q] == JumpRef(base + Size(pre), br.onTrue, br.onFalse)
  {
    hide Size, JumpsOf;
    var p := JumpIndex(items, base, q);
    pre, br, rest := items[..p], items[p], items[p + 1..];
  }

  lemma {:induction false} JumpAtBranch(pre: seq<Item>, br: Item, rest: seq<Item>)
    requires br.Branch?
    ensures exists q :: 0 <= q < |JumpsOf(pre + [br] + rest, 0)| && JumpsOf(pre + [br] + rest, 0)[q].index == Size(pre)
  {
    var tail := [br] + rest;
    assert pre + [br] + rest == pre + tail && tail[0] == br;
    JumpsConcat(pre, tail, 0);
    var q := |JumpsOf(pre, 0)|;
    assert JumpsOf(tail, Size(pre))[0].index == Size(pre);
    assert JumpsOf(pre + tail, 0)[q] == JumpsOf(tail, Size(pre))[0];
  }

  lemma {:induction false} JumpsAscend(items: seq<Item>, base: Index)
    ensures Ascending(JumpsOf(items, base))
  {
    if items != [] {
      JumpsAscend(items[1..], base + Emits(items[0]));
    }
  }

  lemma {:induction false} GoodSuffix(pre: seq<Item>, rest: seq<Item>)
    requires Good(pre + rest)
    ensures Good(rest)
  {
    if pre == [] {
      assert pre + rest == rest;
    } else {
      assert (pre + rest)[1..] == pre[1..] + rest;
      GoodSuffix(pre[1..], rest);
    }
  }

  /** The first return at or after a place in the code. */
  lemma {:induction false} NextRetAt(pre: seq<Item>, rest: seq<Item>)
    requires HasReturn(rest)
    ensures NextRet(InstrsOf(pre + rest), Size(pre)) == Size(pre) + RetDist(rest)
    decreases |rest|
  {
    var it, tail := rest[0], rest[1..];
    assert pre + rest == pre + [it] + tail;
    SizeConcat(pre, [it]);
    if !it.Mark? {
      InstrAt(pre, it, tail);
    }
    if !it.Return? {
      var k :| 0 <= k < |rest| && rest[k].Return?;
      assert tail[k - 1].Return?;
      NextRetAt(pre + [it], tail);
      assert [it][1..] == [];
    }
  }

  lemma InstrAt(pre: seq<Item>, it: Item, rest: seq<Item>)
    requires !it.Mark?
    ensures Size(pre) < Size(pre + [it] + rest) && InstrsOf(pre + [it] + rest)[Size(pre)] == InstrOf(it)
  {
    TablesAt(pre, it, rest);
    WholeTables(pre + [it] + rest, 0);
  }

  lemma {:induction false} CountOfMarks(items: seq<Item>, base: Index, l: Label)
    ensures |MarksOf(items, base, l)| == MarkCount(items, l)
  {
    if items != [] {
      CountOfMarks(items[1..], base + Emits(items[0]), l);
    }
  }

  /** Where a label that is set after a branch stands: it has that single position. */
  lemma OnePosition(pre: seq<Item>, br: Item, rest: seq<Item>, l: Label)
    requires br.Branch? && Marks(rest, l) && MarkCount(pre + [br] + rest, l) <= 1
    ensures Positions(Whole(pre + [br] + rest), l) == [Size(pre) + 1 + Dist(rest, l)]
  {
    var items := pre + [br] + rest;
    TargetOfBranch(pre, br, rest, l);
    WholeTables(items, l);
    CountOfMarks(items, 0, l);
    var ps := Positions(Whole(items), l);
    assert |ps| == 1;
    assert DropUpTo(ps, Size(pre)) == ps;
  }

  lemma {:induction false} ReturnBehind(items: seq<Item>, l: Label)
    requires Marks(items, l) && items[|items| - 1].Return?
    ensures Dist(items, l) < Size(items)
  {
    if items[0] == Mark(l) {
      assert items[1..] != [];
      LastCounts(items);
    } else {
      assert items[1..][|items[1..]| - 1] == items[|items| - 1];
      ReturnBehind(items[1..], l);
    }
  }

  lemma {:induction false} LastCounts(items: seq<Item>)
    requires items != [] && items[|items| - 1].Return?
    ensures Size(items) > 0
  {
    if |items| > 1 {
      LastCounts(items[1..]);
    }
  }

  lemma TailOf(pre: seq<Item>, br: Item, rest: seq<Item>)
    requires br.Branch? && Shaped(pre + [br] + rest)
    ensures Good([br] + rest) && rest != [] && rest[|rest| - 1].Return?
  {
    hide Good, MarkCount;
    var items := pre + [br] + rest;
    assert items == pre + ([br] + rest);
    GoodSuffix(pre, [br] + rest);
    assert items[|items| - 1] == (if rest == [] then br else rest[|rest| - 1]);
  }

  lemma HomeInTables(pre: seq<Item>, br: Item, rest: seq<Item>)
    requires br.Branch? && HasReturn(rest)
    ensures NextRet(Whole(pre + [br] + rest).instrs, Size(pre)) == Size(pre) + 1 + RetDist(rest)
    ensures |Whole(pre + [br] + rest).instrs| == Size(pre) + 1 + Size(rest)
  {
    hide Whole, HasReturn, NextRet, InstrsOf;
    var tail := [br] + rest;
    assert pre + [br] + rest == pre + tail && tail[1..] == rest;
    WholeTables(pre + tail, 0);
    ConsReturn(br, rest);
    NextRetAt(pre, tail);
    SizeConcat(pre, tail);
  }

  lemma LoadInTables(pre: seq<Item>, br: Item, rest: seq<Item>)
    requires br.Branch? && LoadNext(rest)
    ensures var c := Whole(pre + [br] + rest); Size(pre) + 1 < |c.instrs| && c.instrs[Size(pre) + 1].LoadAbsolute?
  {
    hide Whole, LoadNext;
    WholeTables(pre + [br] + rest, 0);
    LoadNextAt(pre + [br], rest);
    SizeConcat(pre, [br]);
    assert [br][1..] == [];
  }

  /** What a branch of a shaped program looks like in the tables. */
  lemma EdgeInTables(pre: seq<Item>, br: Item, rest: seq<Item>, q: nat, b: bool)
    requires br.Branch? && Shaped(pre + [br] + rest)
    requires var c := Whole(pre + [br] + rest);
             q < |c.jumps| && c.jumps[q] == JumpRef(Size(pre), br.onTrue, br.onFalse)
    ensures TameEdge(Whole(pre + [br] + rest), q, b)
    ensures Home(Whole(pre + [br] + rest), q) == Size(pre) + 1 + RetDist(rest)
    ensures Dest(Whole(pre + [br] + rest), q, b) == Size(pre) + 1 + Dist(rest, if b then br.onTrue else br.onFalse)
  {
    hide Good, Whole, MarkCount, Dist, RetDist, ExitLabel, Marks, Size, LoadNext, Positions, NextRet, HasReturn;
    TailOf(pre, br, rest);
    GoodHeadOf(br, rest);
    HomeInTables(pre, br, rest);
    if LoadNext(rest) {
      LoadInTables(pre, br, rest);
    }
    OnePosition(pre, br, rest, br.onTrue);
    OnePosition(pre, br, rest, br.onFalse);
    ReturnBehind(rest, br.onTrue);
    ReturnBehind(rest, br.onFalse);
  }

  lemma GoodHeadOf(br: Item, rest: seq<Item>)
    requires Good([br] + rest)
    ensures GoodHead([br] + rest) && ([br] + rest)[1..] == rest
  {}

  lemma {:induction false} LoadNextAt(pre: seq<Item>, rest: seq<Item>)
    requires LoadNext(rest)
    ensures Size(pre) < Size(pre + rest) && InstrsOf(pre + rest)[Size(pre)].LoadAbsolute?
    decreases |rest|
  {
    var it, tail := rest[0], rest[1..];
    assert pre + rest == pre + [it] + tail;
    if it.Load? {
      InstrAt(pre, it, tail);
    } else {
      SizeConcat(pre, [it]);
      assert [it][1..] == [];
      LoadNextAt(pre + [it], tail);
    }
  }

  // ---- branches that leave share a label ----

  /** The return that an exit label stands before. */
  lemma {:induction false} ExitSplit(items: seq<Item>) returns (a: seq<Item>, ret: Item, b: seq<Item>)
    requires ExitLabel(items).Some?
    ensures items == a + [Mark(ExitLabel(items).value), ret] + b && ret.Return? && Size(a) == RetDist(items)
  {
    if items[0].Mark? && items[1].Return? {
      a, ret, b := [], items[1], items[2..];
    } else {
      var x := items[0];
      a, ret, b := ExitSplit(items[1..]);
      assert items == [x] + items[1..];
      assert ([x] + a)[1..] == a;
      a := [x] + a;
    }
  }

  lemma {:induction false} SizeMonotone(items: seq<Item>, m: nat, n: nat)
    requires m <= n <= |items|
    ensures Size(items[..m]) <= Size(items[..n])
  {
    assert items[..n] == items[..m] + items[m..n];
    SizeConcat(items[..m], items[m..n]);
  }

  /** Two marks, each just before the return at the same index, are the same mark. */
  lemma SameReturn(items: seq<Item>, m: nat, n: nat)
    requires m + 1 < |items| && n + 1 < |items| && items[m + 1].Return? && items[n + 1].Return?
    requires items[m].Mark? && items[n].Mark? && Size(items[..m]) == Size(items[..n])
    ensures m == n
  {
    var lo, hi := if m < n then m else n, if m < n then n else m;
    if lo < hi {
      assert lo + 2 <= hi;
      SizeMonotone(items, lo + 2, hi);
      assert items[..lo + 2] == items[..lo] + [items[lo]] + [items[lo + 1]];
      SizeConcat(items[..lo] + [items[lo]], [items[lo + 1]]);
      SizeConcat(items[..lo], [items[lo]]);
      OneItem(items[lo + 1]);
    }
  }

  /** A branch that leaves does so by the label set just before its return. */
  lemma ExitIndex(pre: seq<Item>, br: Item, rest: seq<Item>, l: Label) returns (m: nat)
    requires LeavesBy(rest, l) && br.Branch?
    ensures var items := pre + [br] + rest;
            m + 1 < |items| && items[m] == Mark(l) && items[m + 1].Return? && Size(items[..m]) == Size(pre) + 1 + RetDist(rest)
  {
    var items := pre + [br] + rest;
    var a, ret, b := ExitSplit(rest);
    m := |pre| + 1 + |a|;
    assert items[..m] == pre + [br] + a;
    SizeConcat(pre + [br], a);
    SizeConcat(pre, [br]);
    assert [br][1..] == [];
    assert items == pre + [br] + a + [Mark(l), ret] + b;
  }

  lemma ExitLeaves(pre: seq<Item>, br: Item, rest: seq<Item>, l: Label)
    requires br.Branch? && Shaped(pre + [br] + rest)
    requires (l == br.onTrue || l == br.onFalse) && Dist(rest, l) == RetDist(rest)
    ensures LeavesBy(rest, l)
  {
    assert pre + [br] + rest == pre + ([br] + rest);
    GoodSuffix(pre, [br] + rest);
    GoodHeadOf(br, rest);
  }

  lemma OneExit(items: seq<Item>, q: nat, b: bool, p: nat, a: bool)
    requires Shaped(items) && q < |Whole(items).jumps| && p < |Whole(items).jumps|
    ensures OneExitLabel(Whole(items), q, b, p, a)
  {
    hide Good, Whole, Shaped, TameEdge, Home, LeavesBy, Dist, RetDist, JumpsOf;
    var c := Whole(items);
    WholeTables(items, 0);
    if IsExit(c, q, b) && IsExit(c, p, a) && Home(c, q) == Home(c, p) {
      var pre, br, rest := JumpSplit(items, 0, q);
      var pre', br', rest' := JumpSplit(items, 0, p);
      EdgeInTables(pre, br, rest, q, b);
      EdgeInTables(pre', br', rest', p, a);
      var l, l' := LabelOf(c.jumps[q], b), LabelOf(c.jumps[p], a);
      ExitLeaves(pre, br, rest, l);
      ExitLeaves(pre', br', rest', l');
      var m := ExitIndex(pre, br, rest, l);
      var n := ExitIndex(pre', br', rest', l');
      SameReturn(items, m, n);
    }
  }

  // ---- the tables as a whole ----

  lemma LoadFeedsJump(items: seq<Item>, i: nat)
    requires Good(items) && i < |InstrsOf(items)| && InstrsOf(items)[i].LoadAbsolute?
    ensures i + 1 < |InstrsOf(items)| && InstrsOf(items)[i + 1].JumpIf?
  {
    hide Good, InstrsOf, Size;
    var pre, it, rest := InstrSplit(items, i);
    assert items == pre + ([it] + rest);
    GoodSuffix(pre, [it] + rest);
    GoodHeadOf(it, rest);
    assert ([it] + rest)[1] == rest[0];
    assert items == (pre + [it]) + [rest[0]] + rest[1..];
    SizeConcat(pre, [it]);
    OneItem(it);
    InstrAt(pre + [it], rest[0], rest[1..]);
  }

  lemma LoadsFeedJumps(items: seq<Item>)
    requires Good(items)
    ensures LoadsBeforeJumps(InstrsOf(items))
  {
    hide Good, InstrsOf;
    forall i | 0 <= i < |InstrsOf(items)| && InstrsOf(items)[i].LoadAbsolute?
      ensures i + 1 < |InstrsOf(items)| && InstrsOf(items)[i + 1].JumpIf?
    {
      LoadFeedsJump(items, i);
    }
  }

  lemma NoJumps(items: seq<Item>)
    ensures forall i :: 0 <= i < |InstrsOf(items)| ==> !InstrsOf(items)[i].Jump?
  {
    forall i | 0 <= i < |InstrsOf(items)| ensures !InstrsOf(items)[i].Jump? {
      var pre, it, rest := InstrSplit(items, i);
    }
  }

  lemma JumpsAreListed(items: seq<Item>)
    ensures Exact(Whole(items))
    ensures forall q :: 0 <= q < |Whole(items).jumps| ==> IsJump(Whole(items), Whole(items).jumps[q].index)
  {
    hide Whole;
    var c := Whole(items);
    WholeTables(items, 0);
    forall i | 0 <= i < |c.instrs| && c.instrs[i].JumpIf? ensures exists q :: 0 <= q < |c.jumps| && c.jumps[q].index == i {
      var pre, it, rest := InstrSplit(items, i);
      JumpAtBranch(pre, it, rest);
    }
    forall q | 0 <= q < |c.jumps| ensures IsJump(c, c.jumps[q].index) {
      var pre, br, rest := JumpSplit(items, 0, q);
      InstrAt(pre, br, rest);
    }
  }

  lemma EndsInReturn(items: seq<Item>)
    requires items != [] && items[|items| - 1].Return?
    ensures |InstrsOf(items)| > 0 && InstrsOf(items)[|InstrsOf(items)| - 1] == InstrOf(items[|items| - 1])
    ensures forall l, k :: 0 <= k < |MarksOf(items, 0, l)| ==> MarksOf(items, 0, l)[k] < |InstrsOf(items)|
  {
    var k := |items| - 1;
    var ret := [items[k]];
    assert items == items[..k] + ret && ret[1..] == [];
    InstrsConcat(items[..k], ret);
    SizeConcat(items[..k], ret);
    assert InstrsOf(ret) == [InstrOf(items[k])];
    forall l, i | 0 <= i < |MarksOf(items, 0, l)| ensures MarksOf(items, 0, l)[i] < |InstrsOf(items)| {
      MarksConcat(items[..k], ret, 0, l);
    }
  }

  /** Well-shaped builder calls leave tame tables. */
  lemma ShapedIsTame(items: seq<Item>)
    requires Shaped(items)
    ensures Tame(Whole(items))
  {
    hide Good, Whole, TameEdge, OneExitLabel, Exact, JumpsOf, InstrsOf, MarksOf, MarkCount, LoadsBeforeJumps, Ascending;
    var c := Whole(items);
    WholeTables(items, 0);
    JumpsAreListed(items);
    JumpsAscend(items, 0);
    NoJumps(items);
    LoadsFeedJumps(items);
    EndsInReturn(items);
    forall q, b | 0 <= q < |c.jumps| ensures TameEdge(c, q, b) {
      var pre, br, rest := JumpSplit(items, 0, q);
      EdgeInTables(pre, br, rest, q, b);
    }
    forall q, b, p, a | 0 <= q < |c.jumps| && 0 <= p < |c.jumps| ensures OneExitLabel(c, q, b, p, a) {
      OneExit(items, q, b, p, a);
    }
  }

  // ---- every label used is set later ----

  /** Each branch finds both its labels set behind it. */
  predicate Closed(items: seq<Item>) {
    items == [] || (
      && (items[0].Branch? ==> Marks(items[1..], items[0].onTrue) && Marks(items[1..], items[0].onFalse))
      && Closed(items[1..]))
  }

  lemma {:induction false} ClosedSuffix(pre: seq<Item>, rest: seq<Item>)
    requires Closed(pre + rest)
    ensures Closed(rest)
  {
    if pre == [] {
      assert pre + rest == rest;
    } else {
      assert (pre + rest)[1..] == pre[1..] + rest;
      ClosedSuffix(pre[1..], rest);
    }
  }

  lemma ResolvableAt(items: seq<Item>, q: nat)
    requires Closed(items) && q < |Whole(items).jumps|
    ensures Resolvable(Whole(items), Whole(items).jumps[q])
  {
    hide Closed, Whole, Exact, Marks;
    WholeTables(items, 0);
    var pre, br, rest := JumpSplit(items, 0, q);
    assert items == pre + ([br] + rest);
    ClosedSuffix(pre, [br] + rest);
    ClosedHead(br, rest);
    SetSomewhere(pre + [br], rest, br.onTrue);
    SetSomewhere(pre + [br], rest, br.onFalse);
    TablesAt(pre, br, rest);
  }

  lemma PositionsBelow(items: seq<Item>, l: Label)
    requires items != [] && items[|items| - 1].Return?
    ensures AllBelow(Positions(Whole(items), l), |Whole(items).instrs|)
  {
    hide Whole;
    WholeTables(items, l);
    EndsInReturn(items);
  }

  /** Tables in which every label used is set later can be assembled without a panic. */
  lemma ClosedIsReady(items: seq<Item>)
    requires Closed(items) && items != [] && items[|items| - 1].Return?
    ensures Ready(Whole(items))
  {
    hide Closed, Whole, Exact, Resolvable, AllBelow;
    var c := Whole(items);
    WholeTables(items, 0);
    JumpsAscend(items, 0);
    forall q | 0 <= q < |c.jumps| ensures Resolvable(c, c.jumps[q]) {
      ResolvableAt(items, q);
    }
    forall l | l in c.labels ensures AllBelow(c.labels[l], |c.instrs|) {
      PositionsBelow(items, l);
    }
  }

  lemma ClosedHead(br: Item, rest: seq<Item>)
    requires br.Branch? && Closed([br] + rest)
    ensures Marks(rest, br.onTrue) && Marks(rest, br.onFalse)
  {
    assert ([br] + rest)[1..] == rest;
  }

  lemma SetSomewhere(pre: seq<Item>, rest: seq<Item>, l: Label)
    requires Marks(rest, l)
    ensures Positions(Whole(pre + rest), l) != []
  {
    WholeTables(pre + rest, l);
    FirstMark(pre + rest, 0, l);
  }

  lemma MarksBehind(a: seq<Item>, k: seq<Item>, l: Label)
    requires Marks(k, l)
    ensures Marks(a + k, l)
  {}

  lemma MarksBehindTwo(a: seq<Item>, b: seq<Item>, k: seq<Item>, l: Label)
    requires Marks(k, l)
    ensures Marks(a + (b + k), l)
  {
    MarksBehind(b, k, l);
    MarksBehind(a, b + k, l);
  }

  lemma ClosedMark(l: Label, k: seq<Item>)
    requires Closed(k)
    ensures Closed([Mark(l)] + k) && Marks([Mark(l)] + k, l)
  {
    assert ([Mark(l)] + k)[1..] == k;
    assert ([Mark(l)] + k)[0] == Mark(l);
  }

  lemma ClosedBranch(test: Test, val: uint32, t: Label, f: Label, k: seq<Item>)
    requires Closed(k) && Marks(k, t) && Marks(k, f)
    ensures Closed([Branch(test, val, t, f)] + k)
  {
    assert ([Branch(test, val, t, f)] + k)[1..] == k;
  }

  lemma ClosedCheck(test: Test, val: uint32, to: Label, next: Label, k: seq<Item>)
    requires Closed(k) && Marks(k, to)
    ensures Closed(CheckTrue(test, val, to, next) + k)
  {
    ClosedMark(next, k);
    ClosedBranch(test, val, to, next, [Mark(next)] + k);
    assert CheckTrue(test, val, to, next) + k == [Branch(test, val, to, next)] + ([Mark(next)] + k);
  }

  lemma ClosedLoad(off: uint32, k: seq<Item>)
    requires Closed(k)
    ensures Closed([Labelled.Load(off)] + k)
  {
    assert ([Labelled.Load(off)] + k)[1..] == k;
  }

  /** The test of the low half closes in front of what follows it. */
  lemma LowClosed(b: uint32, br: Item, k: seq<Item>)
    requires br.Branch? && Closed(k) && Marks(k, br.onTrue) && Marks(k, br.onFalse)
    ensures var low := [Labelled.Load(b)] + ([br] + k);
            Closed(low) && Marks(low, br.onTrue) && Marks(low, br.onFalse)
  {
    hide Closed, Marks;
    ClosedBranch(br.test, br.val, br.onTrue, br.onFalse, k);
    ClosedLoad(b, [br] + k);
    MarksBehindTwo([Labelled.Load(b)], [br], k, br.onTrue);
    MarksBehindTwo([Labelled.Load(b)], [br], k, br.onFalse);
  }

  lemma OneCheckClosed(a: uint32, test: Test, hi: uint32, to: Label, next: Label, b: uint32, br: Item, k: seq<Item>)
    requires br.Branch? && Closed(k) && Marks(k, br.onTrue) && Marks(k, br.onFalse) && to in {br.onTrue, br.onFalse}
    ensures Closed([Labelled.Load(a)] + CheckTrue(test, hi, to, next) + [Labelled.Load(b)] + [br] + k)
  {
    hide Closed, Marks, CheckTrue;
    var check, low := CheckTrue(test, hi, to, next), [Labelled.Load(b)] + ([br] + k);
    LowClosed(b, br, k);
    ClosedCheck(test, hi, to, next, low);
    ClosedLoad(a, check + low);
    assert [Labelled.Load(a)] + check + [Labelled.Load(b)] + [br] + k == [Labelled.Load(a)] + (check + low);
  }

  lemma TwoChecksClosed(a: uint32, test: Test, hi: uint32, next: Label, b: uint32, br: Item, k: seq<Item>)
    requires br.Branch? && Closed(k) && Marks(k, br.onTrue) && Marks(k, br.onFalse)
    ensures Closed([Labelled.Load(a)] + CheckTrue(test, hi, br.onTrue, next)
                   + CheckTrue(Test.NotEqual, hi, br.onFalse, next + 1) + [Labelled.Load(b)] + [br] + k)
  {
    hide Closed, Marks, CheckTrue;
    var check, check' := CheckTrue(test, hi, br.onTrue, next), CheckTrue(Test.NotEqual, hi, br.onFalse, next + 1);
    var low := [Labelled.Load(b)] + ([br] + k);
    LowClosed(b, br, k);
    MarksBehind(check', low, br.onTrue);
    ClosedCheck(Test.NotEqual, hi, br.onFalse, next + 1, low);
    ClosedCheck(test, hi, br.onTrue, next, check' + low);
    ClosedLoad(a, check + (check' + low));
    assert [Labelled.Load(a)] + check + check' + [Labelled.Load(b)] + [br] + k == [Labelled.Load(a)] + (check + (check' + low));
  }

  lemma ConditionClosed(c: Condition, na: Label, nc: Label, last: Label, o: Order, k: seq<Item>)
    requires Closed(k) && Marks(k, na) && Marks(k, nc)
    ensures Closed(ConditionItems(c, na, nc, last, o).items + k)
  {
    hide ConditionItems, CheckTrue, HiOffset, LoOffset, Closed, Hi, Lo, Marks;
    ConditionCases(c, na, nc, last, o);
    var a, b := HiOffset(c.arg, o), LoOffset(c.arg, o);
    var br := Branch(LowTest(c.op), Lo(c.value), na, nc);
    if c.op.Equal? || c.op.NotEqual? || c.op.BitsSet? || c.op.BitsNotSet? {
      var test := if c.op.BitsSet? || c.op.BitsNotSet? then Test.BitsSet else Test.NotEqual;
      var to := if c.op.Equal? || c.op.BitsNotSet? then nc else na;
      OneCheckClosed(a, test, Hi(c.value), to, last + 1, b, br, k);
    } else {
      var test := if c.op.GreaterThan? || c.op.GreaterOrEqual? then Test.GreaterThan else Test.LessThan;
      TwoChecksClosed(a, test, Hi(c.value), last + 1, b, br, k);
    }
  }

  lemma {:induction false} SetClosed(cs: ConditionSet, action: Label, nc: Label, last: Label, o: Order, k: seq<Item>)
    requires Closed(k) && Marks(k, action) && Marks(k, nc)
    ensures Closed(SetItems(cs, action, nc, last, o).items + k)
  {
    hide ConditionItems, Closed, Marks, MarkIf;
    if cs == [] {
      assert [] + k == k;
    } else if |cs| == 1 {
      assert cs[1..] == [];
      JustOne(cs[0], action, nc, last, o);
      assert cs == [cs[0]];
      ConditionClosed(cs[0], action, nc, last, o, k);
    } else {
      var na := last + 1;
      var head := ConditionItems(cs[0], na, nc, last + 1, o);
      var tail := SetItems(cs[1..], action, nc, head.last, o).items;
      SetClosed(cs[1..], action, nc, head.last, o, k);
      MarksBehind(tail, k, nc);
      var k' := MarkIf(true, na) + (tail + k);
      assert SetItems(cs, action, nc, last, o).items + k == head.items + k';
      MaybeMark(true, na, tail + k, nc);
      ConditionClosed(cs[0], na, nc, last + 1, o, k');
    }
  }

  lemma JustOne(c: Condition, action: Label, nc: Label, last: Label, o: Order)
    ensures SetItems([c], action, nc, last, o) == ConditionItems(c, action, nc, last, o)
  {
    hide ConditionItems;
    assert [c][1..] == [];
    var head := ConditionItems(c, action, nc, last, o);
    assert SetItems([], action, nc, head.last, o) == Emitted([], head.last);
  }

  lemma MaybeMark(more: bool, m: Label, k: seq<Item>, l: Label)
    requires Closed(k) && Marks(k, l)
    ensures var r := MarkIf(more, m) + k; Closed(r) && Marks(r, l) && (more || Marks(k, m) ==> Marks(r, m))
  {
    MarksBehind(MarkIf(more, m), k, l);
    if more {
      ClosedMark(m, k);
    } else {
      assert MarkIf(more, m) + k == k;
    }
  }

  lemma {:induction false} SetsClosed(sets: seq<ConditionSet>, action: Label, next: Label, last: Label, o: Order, k: seq<Item>)
    requires Closed(k) && Marks(k, action) && Marks(k, next)
    ensures Closed(SetsItems(sets, action, next, last, o).items + k)
  {
    hide SetItems, Closed, Marks, MarkIf;
    if sets == [] {
      assert [] + k == k;
    } else if |sets| == 1 {
      assert sets == [sets[0]];
      JustOneSet(sets[0], action, next, last, o);
      SetClosed(sets[0], action, next, last, o, k);
    } else {
      var nc := last + 1;
      var head := SetItems(sets[0], action, nc, last + 1, o);
      var tail := SetsItems(sets[1..], action, next, head.last, o).items;
      SetsClosed(sets[1..], action, next, head.last, o, k);
      MarksBehind(tail, k, action);
      var k' := MarkIf(true, nc) + (tail + k);
      assert SetsItems(sets, action, next, last, o).items + k == head.items + k';
      MaybeMark(true, nc, tail + k, action);
      SetClosed(sets[0], action, nc, last + 1, o, k');
    }
  }

  lemma JustOneSet(cs: ConditionSet, action: Label, next: Label, last: Label, o: Order)
    ensures SetsItems([cs], action, next, last, o) == SetItems(cs, action, next, last, o)
  {
    hide SetItems;
    assert [cs][1..] == [];
    var head := SetItems(cs, action, next, last, o);
    assert SetsItems([], action, next, head.last, o) == Emitted([], head.last);
  }

  lemma EntryClosed(e: Entry, more: bool, action: Label, end: Label, last: Label, o: Order, k: seq<Item>)
    requires Closed(k) && Marks(k, action) && Marks(k, end)
    ensures Closed(EntryItems(e, more, action, end, last, o).items + k)
  {
    hide SetsItems, Closed, CheckTrue, Marks;
    if e.conditions == [] {
      if more {
        ClosedCheck(Test.Equal, e.num, action, last + 1, k);
      } else {
        ClosedBranch(Test.Equal, e.num, action, end, k);
      }
    } else {
      var next := if more then last + 1 else end;
      var first := (if more then last + 1 else last) + 1;
      var sets := SetsItems(e.conditions, action, next, first, o);
      var check := CheckTrue(Test.NotEqual, e.num, next, first);
      var k' := MarkIf(more, next) + k;
      MaybeMark(more, next, k, action);
      SetsClosed(e.conditions, action, next, first, o, k');
      MarksBehind(sets.items, k', next);
      ClosedCheck(Test.NotEqual, e.num, next, first, sets.items + k');
      assert check + sets.items + MarkIf(more, next) + k == check + (sets.items + k');
    }
  }

  lemma {:induction false} EntriesClosed(es: seq<Entry>, action: Label, end: Label, last: Label, o: Order, k: seq<Item>)
    requires Closed(k) && Marks(k, action) && Marks(k, end)
    ensures Closed(EntriesItems(es, action, end, last, o).items + k)
  {
    hide EntryItems, Closed, Marks;
    if es == [] {
      assert [] + k == k;
    } else {
      var head := EntryItems(es[0], |es| > 1, action, end, last, o);
      var tail := EntriesItems(es[1..], action, end, head.last, o).items;
      EntriesClosed(es[1..], action, end, head.last, o, k);
      MarksBehind(tail, k, action);
      MarksBehind(tail, k, end);
      EntryClosed(es[0], |es| > 1, action, end, last, o, tail + k);
      assert EntriesItems(es, action, end, last, o).items + k == head.items + (tail + k);
    }
  }

  /** Whatever its entries, a group sets every label it uses later than its use. */
  lemma GroupClosed(es: seq<Entry>, action: uint32, last: Label, o: Order, k: seq<Item>)
    requires Closed(k)
    ensures Closed(GroupItems(es, action, last, o).items + k)
  {
    hide EntriesItems, Closed;
    var body := EntriesItems(es, last + 1, last + 2, last + 2, o);
    var tail := [Mark(last + 1), Return(ReturnValue(action)), Mark(last + 2)] + k;
    ClosedTail(Mark(last + 1), Return(ReturnValue(action)), Mark(last + 2), k);
    assert tail[0] == Mark(last + 1) && tail[2] == Mark(last + 2);
    EntriesClosed(es, last + 1, last + 2, last + 2, o, tail);
    assert GroupItems(es, action, last, o).items + k == body.items + tail;
  }

  lemma ClosedTail(x: Item, y: Item, z: Item, k: seq<Item>)
    requires Closed(k) && !x.Branch? && !y.Branch? && !z.Branch?
    ensures Closed([x, y, z] + k)
  {
    var t := [x, y, z] + k;
    assert t[1..][1..][1..] == k;
    assert Closed(t[1..][1..]);
  }
}
