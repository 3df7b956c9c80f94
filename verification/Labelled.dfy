/** Programs whose jumps name labels: the three tables a `Program` keeps, the list of builder calls
    that produced them, and the meaning of both. */
module Labelled {
  import opened Results
  import opened Words
  import opened Bpf

  type Label = nat
  type Index = nat

  /** A conditional jump still to be resolved. */
  datatype JumpRef = JumpRef(index: Index, onTrue: Label, onFalse: Label)

  datatype Code = Code(instrs: seq<Instr>, jumps: seq<JumpRef>, labels: map<Label, seq<Index>>)

  const EMPTY := Code([], [], map[])

  /** One builder call. */
  datatype Item =
    | Load(off: uint32)
    | Branch(test: Test, val: uint32, onTrue: Label, onFalse: Label)
    | Return(ret: uint32)
    | Mark(name: Label)

  function Positions(c: Code, l: Label): seq<Index> {
    if l in c.labels then c.labels[l] else []
  }

  function Append(c: Code, it: Item): Code {
    match it
    case Load(off) => c.(instrs := c.instrs + [LoadAbsolute(off, 4)])
    case Branch(test, val, onTrue, onFalse) =>
      c.(instrs := c.instrs + [JumpIf(test, val, 0, 0)],
         jumps := c.jumps + [JumpRef(|c.instrs|, onTrue, onFalse)])
    case Return(v) => c.(instrs := c.instrs + [RetConstant(v)])
    case Mark(l) => c.(labels := c.labels[l := Positions(c, l) + [|c.instrs|]])
  }

  function AppendAll(c: Code, items: seq<Item>): Code
    decreases |items|
  {
    if items == [] then c else AppendAll(Append(c, items[0]), items[1..])
  }

  lemma {:induction false} AppendAllConcat(c: Code, a: seq<Item>, b: seq<Item>)
    ensures AppendAll(c, a + b) == AppendAll(AppendAll(c, a), b)
    decreases |a|
  {
    if a == [] {
      assert a + b == b;
    } else {
      assert (a + b)[1..] == a[1..] + b;
      AppendAllConcat(Append(c, a[0]), a[1..], b);
    }
  }

  // ---- meaning of the builder calls: a branch continues behind the next mark of its label ----

  function Goto(items: seq<Item>, l: Label): (rest: seq<Item>)
    ensures |rest| <= |items|
  {
    if items == [] then []
    else if items[0] == Mark(l) then items[1..]
    else Goto(items[1..], l)
  }

  function Exec(items: seq<Item>, acc: uint32, env: Env): Outcome
    decreases |items|
  {
    if items == [] then Fault
    else
      match items[0]
      case Return(v) => Verdict(v)
      case Mark(_) => Exec(items[1..], acc, env)
      case Load(off) =>
        (match Fetch(env, off, 4)
         case None => Fault
         case Some(w) => Exec(items[1..], w, env))
      case Branch(test, val, onTrue, onFalse) =>
        Exec(Goto(items[1..], if Passes(test, acc, val) then onTrue else onFalse), acc, env)
  }

  // ---- meaning of the tables: a jump goes to the first position of its label past its own index ----

  /** The list without its leading positions at or before `i`. */
  function DropUpTo(ps: seq<Index>, i: Index): (r: seq<Index>)
    ensures r != [] ==> r[0] > i
  {
    if ps == [] || ps[0] > i then ps else DropUpTo(ps[1..], i)
  }

  function FirstAfter(ps: seq<Index>, i: Index): Option<Index> {
    var r := DropUpTo(ps, i);
    if r == [] then None else Some(r[0])
  }

  function JumpAt(jumps: seq<JumpRef>, i: Index): Option<JumpRef> {
    if jumps == [] then None
    else if jumps[0].index == i then Some(jumps[0])
    else JumpAt(jumps[1..], i)
  }

  function RunLabelled(c: Code, pc: Index, acc: uint32, env: Env): Outcome
    decreases |c.instrs| - pc
  {
    if pc >= |c.instrs| then Fault
    else
      match c.instrs[pc]
      case RetConstant(v) => Verdict(v)
      case LoadAbsolute(off, size) =>
        (match Fetch(env, off, size)
         case None => Fault
         case Some(w) => RunLabelled(c, pc + 1, w, env))
      case Jump(skip) => RunLabelled(c, pc + 1 + skip, acc, env)
      case JumpIf(test, val, _, _) =>
        (match JumpAt(c.jumps, pc)
         case None => Fault
         case Some(j) =>
           (match FirstAfter(Positions(c, if Passes(test, acc, val) then j.onTrue else j.onFalse), pc)
            case None => Fault
            case Some(t) => RunLabelled(c, t, acc, env)))
  }

  // ---- the tables, read off the list of builder calls ----

  function Emits(it: Item): nat { if it.Mark? then 0 else 1 }

  function Size(items: seq<Item>): nat {
    if items == [] then 0 else Emits(items[0]) + Size(items[1..])
  }

  function InstrOf(it: Item): Instr
    requires !it.Mark?
  {
    match it
    case Load(off) => LoadAbsolute(off, 4)
    case Branch(test, val, _, _) => JumpIf(test, val, 0, 0)
    case Return(v) => RetConstant(v)
  }

  function InstrsOf(items: seq<Item>): (r: seq<Instr>)
    ensures |r| == Size(items)
  {
    if items == [] then []
    else if items[0].Mark? then InstrsOf(items[1..])
    else [InstrOf(items[0])] + InstrsOf(items[1..])
  }

  /** The jump table of `items` when they are emitted from index `base` on. */
  function JumpsOf(items: seq<Item>, base: Index): (r: seq<JumpRef>)
    ensures forall k :: 0 <= k < |r| ==> base <= r[k].index < base + Size(items)
  {
    if items == [] then []
    else if items[0].Branch? then
      [JumpRef(base, items[0].onTrue, items[0].onFalse)] + JumpsOf(items[1..], base + 1)
    else JumpsOf(items[1..], base + Emits(items[0]))
  }

  function MarksOf(items: seq<Item>, base: Index, l: Label): (r: seq<Index>)
    ensures forall k :: 0 <= k < |r| ==> base <= r[k] <= base + Size(items)
  {
    if items == [] then []
    else if items[0] == Mark(l) then [base] + MarksOf(items[1..], base, l)
    else MarksOf(items[1..], base + Emits(items[0]), l)
  }

  lemma SizeStep(items: seq<Item>)
    requires items != []
    ensures Size(items) == Emits(items[0]) + Size(items[1..])
  {}

  lemma {:induction false} SizeConcat(a: seq<Item>, b: seq<Item>)
    ensures Size(a + b) == Size(a) + Size(b)
  {
    if a == [] {
      assert a + b == b;
    } else {
      assert (a + b)[1..] == a[1..] + b;
      SizeConcat(a[1..], b);
    }
  }

  lemma Regroup<T>(a: seq<T>, b: seq<T>, c: seq<T>)
    ensures a + b + c == a + (b + c)
  {}

  function OneInstr(it: Item): seq<Instr> { if it.Mark? then [] else [InstrOf(it)] }

  function OneJump(it: Item, i: Index): seq<JumpRef> {
    if it.Branch? then [JumpRef(i, it.onTrue, it.onFalse)] else []
  }

  lemma InstrsStep(items: seq<Item>)
    requires items != []
    ensures InstrsOf(items) == OneInstr(items[0]) + InstrsOf(items[1..])
  {}

  lemma JumpsStep(items: seq<Item>, base: Index)
    requires items != []
    ensures JumpsOf(items, base) == OneJump(items[0], base) + JumpsOf(items[1..], base + Emits(items[0]))
  {}

  lemma AppendTables(c: Code, it: Item)
    ensures Append(c, it).instrs == c.instrs + OneInstr(it)
    ensures Append(c, it).jumps == c.jumps + OneJump(it, |c.instrs|)
    ensures |Append(c, it).instrs| == |c.instrs| + Emits(it)
  {
    assert c.instrs + [] == c.instrs && c.jumps + [] == c.jumps;
  }

  lemma {:induction false} InstrsTable(c: Code, items: seq<Item>)
    ensures AppendAll(c, items).instrs == c.instrs + InstrsOf(items)
    decreases |items|
  {
    if items == [] {
      assert c.instrs + [] == c.instrs;
    } else {
      InstrsStep(items);
      hide Append, InstrsOf;
      AppendTables(c, items[0]);
      InstrsTable(Append(c, items[0]), items[1..]);
      Regroup(c.instrs, OneInstr(items[0]), InstrsOf(items[1..]));
    }
  }

  lemma {:induction false} JumpsTable(c: Code, items: seq<Item>)
    ensures AppendAll(c, items).jumps == c.jumps + JumpsOf(items, |c.instrs|)
    decreases |items|
  {
    if items == [] {
      assert c.jumps + [] == c.jumps;
    } else {
      var i, it := |c.instrs|, items[0];
      JumpsStep(items, i);
      hide Append, JumpsOf;
      AppendTables(c, it);
      JumpsTable(Append(c, it), items[1..]);
      Regroup(c.jumps, OneJump(it, i), JumpsOf(items[1..], i + Emits(it)));
    }
  }

  lemma AppendPositions(c: Code, it: Item, l: Label)
    ensures Positions(Append(c, it), l) == Positions(c, l) + (if it == Mark(l) then [|c.instrs|] else [])
    ensures |Append(c, it).instrs| == |c.instrs| + Emits(it)
  {}

  lemma {:induction false} LabelsTable(c: Code, items: seq<Item>, l: Label)
    ensures Positions(AppendAll(c, items), l) == Positions(c, l) + MarksOf(items, |c.instrs|, l)
    decreases |items|
  {
    hide Append, Positions;
    if items != [] {
      AppendPositions(c, items[0], l);
      LabelsTable(Append(c, items[0]), items[1..], l);
    }
  }

  lemma {:induction false} JumpsConcat(a: seq<Item>, b: seq<Item>, base: Index)
    ensures JumpsOf(a + b, base) == JumpsOf(a, base) + JumpsOf(b, base + Size(a))
  {
    if a == [] {
      assert a + b == b;
    } else {
      assert (a + b)[1..] == a[1..] + b;
      JumpsStep(a, base);
      JumpsStep(a + b, base);
      SizeStep(a);
      hide JumpsOf, Size;
      JumpsConcat(a[1..], b, base + Emits(a[0]));
      Regroup(OneJump(a[0], base), JumpsOf(a[1..], base + Emits(a[0])), JumpsOf(b, base + Size(a)));
    }
  }

  lemma {:induction false} MarksConcat(a: seq<Item>, b: seq<Item>, base: Index, l: Label)
    ensures MarksOf(a + b, base, l) == MarksOf(a, base, l) + MarksOf(b, base + Size(a), l)
  {
    if a == [] {
      assert a + b == b;
    } else {
      assert (a + b)[1..] == a[1..] + b;
      MarksConcat(a[1..], b, base + Emits(a[0]), l);
    }
  }

  lemma {:induction false} InstrsConcat(a: seq<Item>, b: seq<Item>)
    ensures InstrsOf(a + b) == InstrsOf(a) + InstrsOf(b)
  {
    if a == [] {
      assert a + b == b;
    } else {
      assert (a + b)[1..] == a[1..] + b;
      InstrsStep(a);
      InstrsStep(a + b);
      hide InstrsOf;
      InstrsConcat(a[1..], b);
      Regroup(OneInstr(a[0]), InstrsOf(a[1..]), InstrsOf(b));
    }
  }

  predicate Marks(items: seq<Item>, l: Label) { Mark(l) in items }

  /** How many instructions lie before the first mark of `l`. */
  function Dist(items: seq<Item>, l: Label): nat {
    if items == [] || items[0] == Mark(l) then 0 else Emits(items[0]) + Dist(items[1..], l)
  }

  lemma {:induction false} GotoSplit(items: seq<Item>, l: Label) returns (skipped: seq<Item>)
    requires Marks(items, l)
    ensures items == skipped + [Mark(l)] + Goto(items, l)
    ensures !Marks(skipped, l)
    ensures Size(skipped) == Dist(items, l)
  {
    if items[0] == Mark(l) {
      skipped := [];
    } else {
      var s := GotoSplit(items[1..], l);
      skipped := [items[0]] + s;
      assert skipped[1..] == s;
    }
  }

  lemma {:induction false} GotoUnmarked(items: seq<Item>, l: Label)
    requires !Marks(items, l)
    ensures Goto(items, l) == []
    ensures forall base :: MarksOf(items, base, l) == []
  {
    if items != [] {
      GotoUnmarked(items[1..], l);
    }
  }

  lemma {:induction false} DropAllUpTo(a: seq<Index>, b: seq<Index>, i: Index)
    requires forall k :: 0 <= k < |a| ==> a[k] <= i
    ensures DropUpTo(a + b, i) == DropUpTo(b, i)
  {
    if a == [] {
      assert a + b == b;
    } else {
      assert (a + b)[1..] == a[1..] + b;
      DropAllUpTo(a[1..], b, i);
    }
  }

  lemma {:induction false} JumpAtSkips(a: seq<JumpRef>, b: seq<JumpRef>, i: Index)
    requires forall k :: 0 <= k < |a| ==> a[k].index != i
    ensures JumpAt(a + b, i) == JumpAt(b, i)
  {
    if a == [] {
      assert a + b == b;
    } else {
      assert (a + b)[1..] == a[1..] + b;
      JumpAtSkips(a[1..], b, i);
    }
  }

  function Whole(items: seq<Item>): Code { AppendAll(EMPTY, items) }

  /** What the builder calls leave in the three tables. */
  lemma WholeTables(items: seq<Item>, l: Label)
    ensures Whole(items).instrs == InstrsOf(items)
    ensures Whole(items).jumps == JumpsOf(items, 0)
    ensures Positions(Whole(items), l) == MarksOf(items, 0, l)
  {
    InstrsTable(EMPTY, items);
    JumpsTable(EMPTY, items);
    LabelsTable(EMPTY, items, l);
  }

  lemma MarksAround(pre: seq<Item>, br: Item, rest: seq<Item>, l: Label)
    requires br.Branch?
    ensures MarksOf(pre + [br] + rest, 0, l) == MarksOf(pre, 0, l) + MarksOf(rest, Size(pre) + 1, l)
  {
    var tail := [br] + rest;
    assert tail[0] == br && tail[1..] == rest;
    assert pre + [br] + rest == pre + tail;
    MarksConcat(pre, tail, 0, l);
  }

  lemma FirstOfMarks(items: seq<Item>, i: Index, l: Label)
    ensures FirstAfter(MarksOf(items, i + 1, l), i)
            == if Marks(items, l) then Some(i + 1 + Dist(items, l)) else None
  {
    if Marks(items, l) {
      FirstMark(items, i + 1, l);
    } else {
      GotoUnmarked(items, l);
    }
  }

  /** The position a jump of the finished tables goes to. */
  lemma TargetOfBranch(pre: seq<Item>, br: Item, rest: seq<Item>, l: Label)
    requires br.Branch?
    ensures FirstAfter(Positions(Whole(pre + [br] + rest), l), Size(pre))
            == if Marks(rest, l) then Some(Size(pre) + 1 + Dist(rest, l)) else None
  {
    hide Whole, AppendAll, MarksOf, Dist, Size, FirstAfter;
    var i := Size(pre);
    var a, b := MarksOf(pre, 0, l), MarksOf(rest, i + 1, l);
    assert Positions(Whole(pre + [br] + rest), l) == a + b by {
      WholeTables(pre + [br] + rest, l);
      MarksAround(pre, br, rest, l);
    }
    FirstAfterSkips(a, b, i);
    FirstOfMarks(rest, i, l);
  }

  lemma FirstAfterSkips(a: seq<Index>, b: seq<Index>, i: Index)
    requires forall k :: 0 <= k < |a| ==> a[k] <= i
    ensures FirstAfter(a + b, i) == FirstAfter(b, i)
  {
    DropAllUpTo(a, b, i);
  }

  lemma {:induction false} FirstMark(items: seq<Item>, base: Index, l: Label)
    requires Marks(items, l)
    ensures MarksOf(items, base, l) != []
    ensures MarksOf(items, base, l)[0] == base + Dist(items, l)
  {
    if items[0] != Mark(l) {
      FirstMark(items[1..], base + Emits(items[0]), l);
    }
  }

  /** The instruction and, for a branch, the jump-table entry that an item of the program has. */
  lemma TablesAt(pre: seq<Item>, it: Item, rest: seq<Item>)
    requires !it.Mark?
    ensures var c := Whole(pre + [it] + rest);
            Size(pre) < |c.instrs| && c.instrs[Size(pre)] == InstrOf(it)
            && (it.Branch? ==> JumpAt(c.jumps, Size(pre)) == Some(JumpRef(Size(pre), it.onTrue, it.onFalse)))
  {
    hide Whole, MarksOf, JumpAt, InstrsOf, JumpsOf, Size;
    var i, tail := Size(pre), [it] + rest;
    assert pre + [it] + rest == pre + tail;
    WholeTables(pre + tail, 0);
    InstrsConcat(pre, tail);
    HeadTables(it, rest, i);
    if it.Branch? {
      JumpsConcat(pre, tail, 0);
      JumpAtSkips(JumpsOf(pre, 0), JumpsOf(tail, i), i);
      JumpAtHead(JumpRef(i, it.onTrue, it.onFalse), JumpsOf(rest, i + 1));
    }
  }

  lemma HeadTables(it: Item, rest: seq<Item>, base: Index)
    requires !it.Mark?
    ensures InstrsOf([it] + rest) == [InstrOf(it)] + InstrsOf(rest)
    ensures it.Branch? ==> JumpsOf([it] + rest, base) == [JumpRef(base, it.onTrue, it.onFalse)] + JumpsOf(rest, base + 1)
  {
    assert ([it] + rest)[1..] == rest;
  }

  lemma JumpAtHead(j: JumpRef, rest: seq<JumpRef>)
    ensures JumpAt([j] + rest, j.index) == Some(j)
  {}

  lemma SizeWhole(items: seq<Item>)
    ensures |Whole(items).instrs| == Size(items)
  {
    WholeTables(items, 0);
  }

  /** The tables mean what the builder calls mean, from every point of the program. */
  lemma {:induction false} TablesMeanItems(pre: seq<Item>, items: seq<Item>, acc: uint32, env: Env)
    ensures RunLabelled(Whole(pre + items), Size(pre), acc, env) == Exec(items, acc, env)
    decreases |items|
  {
    if items == [] {
      assert pre + items == pre;
      SizeWhole(pre);
    } else {
      var it, rest := items[0], items[1..];
      assert pre + items == pre + [it] + rest == (pre + [it]) + rest;
      SizeConcat(pre, [it]);
      if it.Mark? {
        TablesMeanItems(pre + [it], rest, acc, env);
      } else {
        TablesAt(pre, it, rest);
        match it
        case Return(_) =>
        case Load(off) =>
          if Fetch(env, off, 4).Some? {
            TablesMeanItems(pre + [it], rest, Fetch(env, off, 4).value, env);
          }
        case Branch(test, val, onTrue, onFalse) =>
          BranchMeans(pre, it, rest, if Passes(test, acc, val) then onTrue else onFalse, acc, env);
      }
    }
  }

  lemma {:induction false} BranchMeans(pre: seq<Item>, br: Item, rest: seq<Item>, l: Label, acc: uint32, env: Env)
    requires br.Branch?
    ensures var t := FirstAfter(Positions(Whole(pre + [br] + rest), l), Size(pre));
            Exec(Goto(rest, l), acc, env)
            == if t.None? then Fault else RunLabelled(Whole(pre + [br] + rest), t.value, acc, env)
    decreases |rest|
  {
    TargetOfBranch(pre, br, rest, l);
    if Marks(rest, l) {
      var s := GotoSplit(rest, l);
      var pre' := pre + [br] + s + [Mark(l)];
      assert pre + [br] + rest == pre' + Goto(rest, l);
      SizeConcat(pre, [br]);
      SizeConcat(pre + [br], s);
      SizeConcat(pre + [br] + s, [Mark(l)]);
      TablesMeanItems(pre', Goto(rest, l), acc, env);
    } else {
      GotoUnmarked(rest, l);
    }
  }

  // ---- programs put together from pieces ----

  lemma OneItem(it: Item)
    ensures Size([it]) == Emits(it)
  {
    assert [it][1..] == [];
  }

  lemma ItemTables(it: Item, k: seq<Item>, base: Index)
    ensures Size([it] + k) == Emits(it) + Size(k)
    ensures JumpsOf([it] + k, base)
            == if it.Branch? then [JumpRef(base, it.onTrue, it.onFalse)] + JumpsOf(k, base + 1)
               else JumpsOf(k, base + Emits(it))
  {
    assert ([it] + k)[1..] == k;
  }

  lemma EmptySize()
    ensures Size([]) == 0
  {}

  lemma TwoSize(x: Item, y: Item)
    ensures Size([x, y]) == Emits(x) + Emits(y)
  {
    assert [x, y] == [x] + [y];
    SizeConcat([x], [y]);
    OneItem(x);
    OneItem(y);
  }

  lemma {:induction false} DistPast(a: seq<Item>, k: seq<Item>, l: Label)
    requires !Marks(a, l)
    ensures Dist(a + k, l) == Size(a) + Dist(k, l)
  {
    if a == [] {
      assert a + k == k;
    } else {
      assert (a + k)[1..] == a[1..] + k;
      assert a[0] in a;
      DistPast(a[1..], k, l);
    }
  }

  lemma HereFirst(k: seq<Item>, x: Label)
    requires k != [] && k[0] == Mark(x)
    ensures Marks(k, x) && Dist(k, x) == 0
  {}
}
