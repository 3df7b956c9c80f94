/** The label-resolving assembler: what one resolution step does to the tables, and the `Program` that performs it. */
module Assembler {
  import opened Results
  import opened Words
  import opened Bpf
  import opened Labelled
  import Policies

  datatype AsmError = BackwardJump | UselessJump

  const MAX_UINT8 := 255

  predicate IsJump(c: Code, i: Index) { i < |c.instrs| && c.instrs[i].JumpIf? }

  predicate Ascending(jumps: seq<JumpRef>) {
    forall p, q :: 0 <= p < q < |jumps| ==> jumps[p].index < jumps[q].index
  }

  /** A jump-table entry that names a jump instruction and two labels that have been set. */
  predicate Resolvable(c: Code, j: JumpRef) {
    IsJump(c, j.index) && Positions(c, j.onTrue) != [] && Positions(c, j.onFalse) != []
  }

  predicate AllBelow(ps: seq<Index>, n: nat) { forall k :: 0 <= k < |ps| ==> ps[k] < n }

  /** What `Assemble` relies on without checking it: where this fails the original panics. */
  ghost predicate Ready(c: Code) {
    && Ascending(c.jumps)
    && (forall q :: 0 <= q < |c.jumps| ==> Resolvable(c, c.jumps[q]))
    && (forall l :: l in c.labels ==> AllBelow(c.labels[l], |c.instrs|))
  }

  // ---- one insertion ----

  function ShiftIndex(i: Index, at: Index): Index { if i >= at then i + 1 else i }

  function ShiftAll(ps: seq<Index>, at: Index): (r: seq<Index>)
    ensures |r| == |ps|
  {
    seq(|ps|, k requires 0 <= k < |ps| => ShiftIndex(ps[k], at))
  }

  function ShiftRef(j: JumpRef, at: Index): JumpRef { j.(index := ShiftIndex(j.index, at)) }

  function ShiftJumps(js: seq<JumpRef>, at: Index): (r: seq<JumpRef>)
    ensures |r| == |js|
  {
    seq(|js|, k requires 0 <= k < |js| => ShiftRef(js[k], at))
  }

  function ShiftLabels(labels: map<Label, seq<Index>>, at: Index): map<Label, seq<Index>> {
    map l | l in labels :: ShiftAll(labels[l], at)
  }

  function Insert(c: Code, at: Index, inst: Instr): Code
    requires at <= |c.instrs|
  {
    Code(c.instrs[..at] + [inst] + c.instrs[at..], ShiftJumps(c.jumps, at), ShiftLabels(c.labels, at))
  }

  /** The last jump of the list whose index is below `limit`, or `current` when there is none. */
  function LastBelow(jumps: seq<JumpRef>, limit: Index, current: JumpRef): (r: JumpRef)
    ensures r == current || (r in jumps && r.index < limit)
  {
    if jumps == [] then current
    else if jumps[|jumps| - 1].index < limit then jumps[|jumps| - 1]
    else LastBelow(jumps[..|jumps| - 1], limit, current)
  }

  function InsertionPoint(jumps: seq<JumpRef>, j: JumpRef): JumpRef { LastBelow(jumps, j.index + 255, j) }

  /** What is placed in front of a far destination: a copy of it if it is a return, otherwise a long jump. */
  function Trampoline(c: Code, dest: Index, skipN: int, after: Index): Instr
    requires dest < |c.instrs|
  {
    if c.instrs[dest].RetConstant? then c.instrs[dest] else Jump((skipN - after) % TWO_TO_32)
  }

  // ---- one label of one jump ----

  /** The tables and the skip after resolving label `l` of jump `j`. */
  function Resolve(c: Code, j: JumpRef, l: Label): (Code, Result<uint8, AsmError>)
    requires Ready(c) && j in c.jumps && Positions(c, l) != []
  {
    var ps := c.labels[l];
    var dest := DropUpTo(ps, j.index);
    DropUpToIsSuffix(ps, j.index);
    if dest == [] then (Relabel(c, l, [ps[|ps| - 1]]), Err(BackwardJump))
    else
      RelabelKeepsReady(c, l, dest);
      var (d, skip) := Reach(Relabel(c, l, dest), j, l);
      (d, Ok(skip))
  }

  /** The case of a label whose first position lies past the jump. */
  function Reach(c: Code, j: JumpRef, l: Label): (Code, uint8)
    requires Ready(c) && j in c.jumps && Positions(c, l) != [] && c.labels[l][0] > j.index
  {
    var dest := c.labels[l][0];
    var skipN := dest - j.index - 1;
    if skipN <= MAX_UINT8 then (c, skipN)
    else
      InsertionPointRange(c, j);
      var after := InsertionPoint(c.jumps, j).index;
      (InsertFor(c, after + 1, Trampoline(c, dest, skipN, after), l), (after - j.index) % 0x100)
  }

  lemma DropUpToCases(ps: seq<Index>, x: Index)
    ensures DropUpTo(ps, x) == if ps == [] || ps[0] > x then ps else DropUpTo(ps[1..], x)
  {}

  lemma ResolveCases(c: Code, j: JumpRef, l: Label)
    requires Ready(c) && j in c.jumps && Positions(c, l) != []
    ensures var ps := c.labels[l];
            var dest := DropUpTo(ps, j.index);
            if dest == [] then Resolve(c, j, l) == (Relabel(c, l, [ps[|ps| - 1]]), Err(BackwardJump))
            else Ready(Relabel(c, l, dest)) && dest[0] < |c.instrs|
                 && Resolve(c, j, l) == (Reach(Relabel(c, l, dest), j, l).0, Ok(Reach(Relabel(c, l, dest), j, l).1))
  {
    hide Reach;
    DropUpToIsSuffix(c.labels[l], j.index);
    if DropUpTo(c.labels[l], j.index) != [] {
      PopKeepsReady(c, l, j.index);
    }
  }

  lemma ReachCases(c: Code, j: JumpRef, l: Label)
    requires Ready(c) && j in c.jumps && Positions(c, l) != [] && c.labels[l][0] > j.index
    ensures var dest := c.labels[l][0];
            var skipN := dest - j.index - 1;
            var after := InsertionPoint(c.jumps, j).index;
            && dest < |c.instrs| && IsJump(c, after) && j.index <= after < j.index + 255
            && Reach(c, j, l) == if skipN <= MAX_UINT8 then (c, skipN) else
                                 (InsertFor(c, after + 1, Trampoline(c, dest, skipN, after), l), after - j.index)
  {
    InsertionPointRange(c, j);
  }

  function Relabel(c: Code, l: Label, ps: seq<Index>): Code { c.(labels := c.labels[l := ps]) }

  /** Inserts `inst` at `at` and makes that the first position of `l`. */
  function InsertFor(c: Code, at: Index, inst: Instr, l: Label): Code
    requires at <= |c.instrs| && l in c.labels
  {
    var d := Insert(c, at, inst);
    Relabel(d, l, [at] + d.labels[l])
  }

  lemma InsertedFirst(c: Code, at: Index, inst: Instr, l: Label)
    requires at <= |c.instrs| && l in c.labels
    ensures var d := Insert(c, at, inst);
            l in d.labels && InsertFor(c, at, inst, l) == d.(labels := d.labels[l := [at] + d.labels[l]])
  {}

  lemma {:induction false} DropUpToIsSuffix(ps: seq<Index>, i: Index)
    ensures var r := DropUpTo(ps, i);
            |r| <= |ps| && r == ps[|ps| - |r|..] && forall k :: 0 <= k < |ps| - |r| ==> ps[k] <= i
  {
    if ps == [] || ps[0] > i {
    } else {
      DropUpToIsSuffix(ps[1..], i);
    }
  }

  lemma {:induction false} LastBelowIsLast(jumps: seq<JumpRef>, limit: Index, current: JumpRef, k: nat)
    requires k < |jumps| && jumps[k].index < limit && Ascending(jumps)
    ensures var r := LastBelow(jumps, limit, current);
            r in jumps && jumps[k].index <= r.index < limit
  {
    if jumps[|jumps| - 1].index < limit {
    } else {
      LastBelowIsLast(jumps[..|jumps| - 1], limit, current, k);
    }
  }

  lemma InsertionPointAtLeast(jumps: seq<JumpRef>, j: JumpRef, k: nat)
    requires k < |jumps| && jumps[k].index < j.index + 255 && Ascending(jumps)
    ensures jumps[k].index <= InsertionPoint(jumps, j).index
  {
    LastBelowIsLast(jumps, j.index + 255, j, k);
  }

  /** The jump behind which an instruction is inserted lies at or after the jump being resolved, within 254 of it. */
  lemma InsertionPointRange(c: Code, j: JumpRef)
    requires Ready(c) && j in c.jumps
    ensures var r := InsertionPoint(c.jumps, j);
            r in c.jumps && IsJump(c, r.index) && j.index <= r.index < j.index + 255
  {
    var k :| 0 <= k < |c.jumps| && c.jumps[k] == j;
    LastBelowIsLast(c.jumps, j.index + 255, j, k);
    var m :| 0 <= m < |c.jumps| && c.jumps[m] == InsertionPoint(c.jumps, j);
    assert Resolvable(c, c.jumps[m]);
  }

  lemma ReadyJump(c: Code, r: nat)
    requires Ready(c) && r < |c.jumps|
    ensures Resolvable(c, c.jumps[r])
  {}

  lemma ReadyLabel(c: Code, l: Label)
    requires Ready(c) && Positions(c, l) != []
    ensures c.labels[l][0] < |c.instrs|
  {}

  lemma RelabelKeepsReady(c: Code, l: Label, ps: seq<Index>)
    requires Ready(c) && ps != [] && AllBelow(ps, |c.instrs|)
    ensures Ready(Relabel(c, l, ps))
  {
    var d := Relabel(c, l, ps);
    forall q | 0 <= q < |d.jumps| ensures Resolvable(d, d.jumps[q]) {
      assert Resolvable(c, c.jumps[q]);
    }
  }

  lemma PopKeepsReady(c: Code, l: Label, i: Index)
    requires Ready(c) && l in c.labels && DropUpTo(c.labels[l], i) != []
    ensures Ready(Relabel(c, l, DropUpTo(c.labels[l], i)))
    ensures DropUpTo(c.labels[l], i)[0] < |c.instrs|
  {
    DropUpToIsSuffix(c.labels[l], i);
    RelabelKeepsReady(c, l, DropUpTo(c.labels[l], i));
  }

  lemma InsertAt(c: Code, at: Index, inst: Instr, i: Index)
    requires at <= |c.instrs| && i < |c.instrs|
    ensures var d := Insert(c, at, inst);
            |d.instrs| == |c.instrs| + 1 && d.instrs[ShiftIndex(i, at)] == c.instrs[i]
  {}

  lemma InsertKeepsReady(c: Code, at: Index, inst: Instr)
    requires Ready(c) && at <= |c.instrs|
    ensures Ready(Insert(c, at, inst))
  {
    var d := Insert(c, at, inst);
    forall q | 0 <= q < |d.jumps| ensures Resolvable(d, d.jumps[q]) {
      assert Resolvable(c, c.jumps[q]);
      InsertAt(c, at, inst, c.jumps[q].index);
    }
    forall l | l in d.labels ensures AllBelow(d.labels[l], |d.instrs|) {
      assert AllBelow(c.labels[l], |c.instrs|);
    }
    assert Ascending(d.jumps) by {
      forall p, q | 0 <= p < q < |d.jumps| ensures d.jumps[p].index < d.jumps[q].index {
        assert c.jumps[p].index < c.jumps[q].index;
      }
    }
  }

  lemma InsertForKeepsReady(c: Code, at: Index, inst: Instr, l: Label)
    requires Ready(c) && at <= |c.instrs| && l in c.labels
    ensures Ready(InsertFor(c, at, inst, l))
  {
    var d := Insert(c, at, inst);
    InsertKeepsReady(c, at, inst);
    assert AllBelow(d.labels[l], |d.instrs|);
    RelabelKeepsReady(d, l, [at] + d.labels[l]);
  }

  /** `d` is ready like `c`, and jump number `r` is still the same instruction at the same place. */
  ghost predicate StillReady(c: Code, d: Code, r: nat)
    requires r < |c.jumps|
  {
    && Ready(d)
    && |d.jumps| == |c.jumps|
    && d.jumps[r] == c.jumps[r]
    && c.jumps[r].index < |c.instrs| && c.jumps[r].index < |d.instrs|
    && d.instrs[c.jumps[r].index] == c.instrs[c.jumps[r].index]
  }

  lemma InsertForLeavesBefore(c: Code, at: Index, inst: Instr, l: Label, r: nat)
    requires at <= |c.instrs| && l in c.labels && r < |c.jumps| && c.jumps[r].index < at
    ensures var d := InsertFor(c, at, inst, l);
            |d.jumps| == |c.jumps| && d.jumps[r] == c.jumps[r]
            && d.jumps[r].index < |d.instrs| && d.instrs[d.jumps[r].index] == c.instrs[d.jumps[r].index]
  {}

  lemma ReachKeepsReady(c: Code, r: nat, l: Label)
    requires Ready(c) && r < |c.jumps| && Positions(c, l) != [] && c.labels[l][0] > c.jumps[r].index
    ensures StillReady(c, Reach(c, c.jumps[r], l).0, r)
  {
    hide Ready, InsertFor;
    var j := c.jumps[r];
    ReadyJump(c, r);
    ReadyLabel(c, l);
    var dest := c.labels[l][0];
    var skipN := dest - j.index - 1;
    if skipN > MAX_UINT8 {
      InsertionPointRange(c, j);
      var after := InsertionPoint(c.jumps, j).index;
      var inst := Trampoline(c, dest, skipN, after);
      var d := InsertFor(c, after + 1, inst, l);
      InsertForKeepsReady(c, after + 1, inst, l);
      InsertForLeavesBefore(c, after + 1, inst, l, r);
      assert Reach(c, j, l).0 == d;
    } else {
      assert Reach(c, j, l).0 == c;
    }
  }

  /** Resolution keeps the tables ready and leaves the jump it resolves where it is. */
  lemma ResolveKeepsReady(c: Code, r: nat, l: Label)
    requires Ready(c) && r < |c.jumps| && Positions(c, l) != []
    ensures StillReady(c, Resolve(c, c.jumps[r], l).0, r)
  {
    var j, ps := c.jumps[r], c.labels[l];
    assert Resolvable(c, j);
    var dest := DropUpTo(ps, j.index);
    DropUpToIsSuffix(ps, j.index);
    if dest == [] {
      RelabelKeepsReady(c, l, [ps[|ps| - 1]]);
    } else {
      RelabelKeepsReady(c, l, dest);
      ReachKeepsReady(Relabel(c, l, dest), r, l);
    }
  }

  /** Tables, skips and write-back for jump number `r`. */
  function ResolveJump(c: Code, r: nat): (Code, Option<AsmError>)
    requires Ready(c) && r < |c.jumps|
  {
    var j := c.jumps[r];
    assert Resolvable(c, j);
    ResolveKeepsReady(c, r, j.onTrue);
    var (c1, t) := Resolve(c, j, j.onTrue);
    assert Resolvable(c1, c1.jumps[r]);
    if t.Err? then (c1, Some(t.error))
    else
      ResolveKeepsReady(c1, r, j.onFalse);
      var (c2, f) := Resolve(c1, j, j.onFalse);
      assert Resolvable(c2, c2.jumps[r]);
      if f.Err? then (c2, Some(f.error))
      else if t.value == 0 && f.value == 0 then (c2, Some(UselessJump))
      else (Store(c2, j.index, t.value, f.value), None)
  }

  function Store(c: Code, i: Index, skipTrue: uint8, skipFalse: uint8): Code
    requires IsJump(c, i)
  {
    c.(instrs := c.instrs[i := c.instrs[i].(skipTrue := skipTrue, skipFalse := skipFalse)])
  }

  lemma StoreKeepsReady(c: Code, i: Index, skipTrue: uint8, skipFalse: uint8)
    requires Ready(c) && IsJump(c, i)
    ensures Ready(Store(c, i, skipTrue, skipFalse))
  {
    var d := Store(c, i, skipTrue, skipFalse);
    forall q | 0 <= q < |d.jumps| ensures Resolvable(d, d.jumps[q]) {
      assert Resolvable(c, c.jumps[q]);
    }
  }

  lemma ResolveJumpKeepsReady(c: Code, r: nat)
    requires Ready(c) && r < |c.jumps|
    ensures Ready(ResolveJump(c, r).0) && |ResolveJump(c, r).0.jumps| == |c.jumps|
  {
    hide Ready, Resolve;
    var j := c.jumps[r];
    ReadyJump(c, r);
    ResolveKeepsReady(c, r, j.onTrue);
    var (c1, t) := Resolve(c, j, j.onTrue);
    if t.Err? {
      assert ResolveJump(c, r).0 == c1;
    } else {
      ReadyJump(c1, r);
      ResolveKeepsReady(c1, r, j.onFalse);
      var (c2, f) := Resolve(c1, j, j.onFalse);
      if f.Err? || (t.value == 0 && f.value == 0) {
        assert ResolveJump(c, r).0 == c2;
      } else {
        ReadyJump(c2, r);
        StoreKeepsReady(c2, j.index, t.value, f.value);
        assert ResolveJump(c, r).0 == Store(c2, j.index, t.value, f.value);
      }
    }
  }

  /** All jumps from number `r` on. */
  function AssembleFrom(c: Code, r: nat): (Code, Option<AsmError>)
    requires Ready(c) && r <= |c.jumps|
    decreases |c.jumps| - r
  {
    if r == |c.jumps| then (c, None)
    else
      ResolveJumpKeepsReady(c, r);
      var (d, e) := ResolveJump(c, r);
      if e.Some? then (d, e) else AssembleFrom(d, r + 1)
  }

  lemma AssembleFromStep(c: Code, r: nat)
    requires Ready(c) && r < |c.jumps|
    ensures var (d, e) := ResolveJump(c, r);
            && Ready(d) && |d.jumps| == |c.jumps|
            && AssembleFrom(c, r) == if e.Some? then (d, e) else AssembleFrom(d, r + 1)
  {
    ResolveJumpKeepsReady(c, r);
  }

  // ---- the program under construction ----

  class Program {
    var instructions: seq<Instr>
    var jumps: seq<JumpRef>
    var labels: map<Label, seq<Index>>
    var nextLabel: Label

    function Tables(): Code
      reads this
    {
      Code(instructions, jumps, labels)
    }

    constructor ()
      ensures Tables() == EMPTY && nextLabel == 1
    {
      instructions, jumps, labels, nextLabel := [], [], map[], 1;
    }

    method NewLabel() returns (l: Label)
      modifies this`nextLabel
      ensures l == nextLabel == old(nextLabel) + 1
    {
      nextLabel := nextLabel + 1;
      l := nextLabel;
    }

    method JmpIf(test: Test, val: uint32, onTrue: Label, onFalse: Label)
      modifies this
      ensures Tables() == Append(old(Tables()), Branch(test, val, onTrue, onFalse)) && nextLabel == old(nextLabel)
    {
      jumps := jumps + [JumpRef(|instructions|, onTrue, onFalse)];
      instructions := instructions + [JumpIf(test, val, 0, 0)];
    }

    method SetLabel(l: Label)
      modifies this
      ensures Tables() == Append(old(Tables()), Mark(l)) && nextLabel == old(nextLabel)
    {
      labels := labels[l := (if l in labels then labels[l] else []) + [|instructions|]];
    }

    /** The false branch continues with the next instruction. */
    method JmpIfTrue(test: Test, val: uint32, onTrue: Label)
      modifies this
      ensures nextLabel == old(nextLabel) + 1
      ensures Tables() == AppendAll(old(Tables()), [Branch(test, val, onTrue, nextLabel), Mark(nextLabel)])
    {
      var nextInst := NewLabel();
      JmpIf(test, val, onTrue, nextInst);
      SetLabel(nextInst);
      AppendTwo(old(Tables()), Branch(test, val, onTrue, nextInst), Mark(nextInst));
    }

    method Ret(action: uint32)
      modifies this
      ensures Tables() == Append(old(Tables()), Return(Policies.ReturnValue(action))) && nextLabel == old(nextLabel)
      ensures instructions == old(instructions) + [RetConstant(if action == 0x5_0000 then 0x5_0001 else action)]
    {
      var ret := action;
      if action == Policies.ACTION_ERRNO {
        ret := action + Policies.EPERM;
      }
      instructions := instructions + [RetConstant(ret)];
    }

    method LdHi(arg: uint32, nativeEndian: Order)
      modifies this
      ensures Tables() == Append(old(Tables()), Labelled.Load(HiOffset(arg, nativeEndian)))
      ensures var off := if nativeEndian.LittleEndian? then 20 + 8 * arg else 16 + 8 * arg;
              instructions == old(instructions) + [LoadAbsolute(off % 0x1_0000_0000, 4)]
      ensures nextLabel == old(nextLabel)
    {
      var offset := (ARGUMENT_OFFSET + 8 * arg) % TWO_TO_32;
      if nativeEndian == LittleEndian {
        offset := (offset + 4) % TWO_TO_32;
      }
      instructions := instructions + [LoadAbsolute(offset, 4)];
    }

    method LdLo(arg: uint32, nativeEndian: Order)
      modifies this
      ensures Tables() == Append(old(Tables()), Labelled.Load(LoOffset(arg, nativeEndian)))
      ensures var off := if nativeEndian.LittleEndian? then 16 + 8 * arg else 20 + 8 * arg;
              instructions == old(instructions) + [LoadAbsolute(off % 0x1_0000_0000, 4)]
      ensures nextLabel == old(nextLabel)
    {
      var offset := (ARGUMENT_OFFSET + 8 * arg) % TWO_TO_32;
      if nativeEndian == BigEndian {
        offset := (offset + 4) % TWO_TO_32;
      }
      instructions := instructions + [LoadAbsolute(offset, 4)];
    }

    method ComputeSkipN(jump: JumpRef, l: Label) returns (skipN: int)
      requires l in labels && labels[l] != []
      ensures skipN == labels[l][0] - jump.index - 1
    {
      var dest := labels[l];
      skipN := dest[0] - jump.index - 1;
    }

    static method FindInsertAfter(jumps: seq<JumpRef>, currentJump: JumpRef) returns (insertAfter: JumpRef)
      ensures insertAfter == InsertionPoint(jumps, currentJump)
    {
      insertAfter := currentJump;
      var maxIndex := currentJump.index + 255;
      for q := 0 to |jumps|
        invariant insertAfter == LastBelow(jumps[..q], maxIndex, currentJump)
      {
        assert jumps[..q + 1][..q] == jumps[..q];
        if jumps[q].index < maxIndex {
          insertAfter := jumps[q];
        }
      }
      assert jumps[..|jumps|] == jumps;
    }

    /** Moves every index at or past `after` up by one, in both tables. The labels are visited in no particular order. */
    method UpdateIndices(after: Index)
      modifies this`jumps, this`labels
      ensures jumps == ShiftJumps(old(jumps), after)
      ensures labels == ShiftLabels(old(labels), after)
    {
      for q := 0 to |jumps|
        invariant |jumps| == |old(jumps)| && labels == old(labels)
        invariant forall k :: 0 <= k < |jumps| ==> jumps[k] == if k < q then ShiftRef(old(jumps)[k], after) else old(jumps)[k]
      {
        if jumps[q].index >= after {
          jumps := jumps[q := jumps[q].(index := jumps[q].index + 1)];
        }
      }
      assert jumps == ShiftJumps(old(jumps), after);
      hide ShiftJumps, ShiftRef;
      var todo := labels.Keys;
      while todo != {}
        invariant labels.Keys == old(labels).Keys && todo <= labels.Keys && jumps == ShiftJumps(old(jumps), after)
        invariant forall l :: l in labels ==>
          labels[l] == if l in todo then old(labels)[l] else ShiftAll(old(labels)[l], after)
        decreases |todo|
      {
        var l :| l in todo;
        var v: seq<Index> := labels[l];
        for i := 0 to |v|
          invariant |v| == |old(labels)[l]|
          invariant forall k :: 0 <= k < |v| ==>
            v[k] == if k < i then ShiftIndex(old(labels)[l][k], after) else old(labels)[l][k]
        {
          if v[i] >= after {
            v := v[i := v[i] + 1];
          }
        }
        assert v == ShiftAll(old(labels)[l], after);
        labels := labels[l := v];
        todo := todo - {l};
      }
    }

    /** Places `inst` right behind the jump at `index`. */
    method InsertAfter(index: Index, inst: Instr) returns (at: Index)
      requires IsJump(Tables(), index)
      modifies this`instructions, this`jumps, this`labels
      ensures at == index + 1 && Tables() == Insert(old(Tables()), at, inst)
      ensures labels.Keys == old(labels.Keys)
    {
      at := index + 1;
      instructions := instructions[..at] + [inst] + instructions[at..];
      UpdateIndices(at);
    }

    method ResolveLabel(jump: JumpRef, l: Label) returns (r: Result<uint8, AsmError>)
      requires Ready(Tables()) && jump in jumps && Positions(Tables(), l) != []
      modifies this`instructions, this`jumps, this`labels
      ensures (Tables(), r) == Resolve(old(Tables()), jump, l)
    {
      hide Ready, Resolve, Reach, Insert, InsertFor, InsertionPoint, DropUpTo, ShiftJumps, ShiftLabels, Ascending;
      ghost var c, ps := Tables(), labels[l];
      var dest: seq<Index> := labels[l];
      var skipN := ComputeSkipN(jump, l);
      while skipN < 0
        invariant instructions == c.instrs && jumps == c.jumps
        invariant dest != [] && labels == c.labels[l := dest] && dest[|dest| - 1] == ps[|ps| - 1]
        invariant skipN == dest[0] - jump.index - 1
        invariant DropUpTo(dest, jump.index) == DropUpTo(ps, jump.index)
        decreases |dest|
      {
        ResolveCases(c, jump, l);
        DropUpToCases(dest, jump.index);
        DropUpToCases(dest[1..], jump.index);
        ghost var last := dest;
        dest := dest[1..];
        if dest == [] {
          assert last == [ps[|ps| - 1]];
          assert Tables() == Relabel(c, l, [ps[|ps| - 1]]);
          return Err(BackwardJump);
        }
        labels := labels[l := dest];
        skipN := ComputeSkipN(jump, l);
      }
      DropUpToCases(dest, jump.index);
      ResolveCases(c, jump, l);
      ghost var popped := Tables();
      assert popped == Relabel(c, l, DropUpTo(ps, jump.index));
      ghost var reached := Reach(popped, jump, l);
      assert Resolve(c, jump, l) == (reached.0, Ok(reached.1));
      ReachCases(popped, jump, l);
      if skipN > MAX_UINT8 {
        var insertAfter := FindInsertAfter(jumps, jump);
        var jumpDest := instructions[dest[0]];
        if !jumpDest.RetConstant? {
          jumpDest := Jump((skipN - insertAfter.index) % TWO_TO_32);
        }
        assert jumpDest == Trampoline(popped, dest[0], skipN, insertAfter.index);
        var insertIndex := InsertAfter(insertAfter.index, jumpDest);
        InsertedFirst(popped, insertIndex, jumpDest, l);
        dest := labels[l];  // `dest` shares its storage with this list, so UpdateIndices has shifted it too
        labels := labels[l := [insertIndex] + dest];
        skipN := ComputeSkipN(jump, l);
        assert Tables() == InsertFor(popped, insertIndex, jumpDest, l);
      }
      assert reached == (Tables(), skipN);
      return Ok(skipN % 0x100);
    }

    /** One turn of the loop in `Assemble`. */
    method AssembleJump(i: nat) returns (e: Option<AsmError>)
      requires Ready(Tables()) && i < |jumps|
      modifies this`instructions, this`jumps, this`labels
      ensures (Tables(), e) == ResolveJump(old(Tables()), i)
    {
      hide Ready, Resolve;
      ghost var c := Tables();
      ReadyJump(c, i);
      var jump := jumps[i];
      var jumpInst := instructions[jump.index];
      ResolveKeepsReady(c, i, jump.onTrue);
      var skip := ResolveLabel(jump, jump.onTrue);
      if skip.Err? {
        return Some(skip.error);
      }
      jumpInst := jumpInst.(skipTrue := skip.value);
      ghost var c1 := Tables();
      ReadyJump(c1, i);
      ResolveKeepsReady(c1, i, jump.onFalse);
      skip := ResolveLabel(jump, jump.onFalse);
      if skip.Err? {
        return Some(skip.error);
      }
      jumpInst := jumpInst.(skipFalse := skip.value);
      if jumpInst.skipTrue == 0 && jumpInst.skipFalse == 0 {
        return Some(UselessJump);
      }
      instructions := instructions[jump.index := jumpInst];
      return None;
    }

    method Assemble() returns (r: Result<seq<Instr>, AsmError>)
      requires Ready(Tables())
      modifies this`instructions, this`jumps, this`labels
      ensures Tables() == AssembleFrom(old(Tables()), 0).0
      ensures r == match AssembleFrom(old(Tables()), 0).1
                   case None => Ok(instructions)
                   case Some(e) => Err(e)
    {
      hide Ready, Resolve, ResolveJump;
      for i := 0 to |jumps|
        invariant |jumps| == |old(jumps)| && Ready(Tables())
        invariant AssembleFrom(Tables(), i) == AssembleFrom(old(Tables()), 0)
      {
        AssembleFromStep(Tables(), i);
        var e := AssembleJump(i);
        if e.Some? {
          return Err(e.value);
        }
      }
      return Ok(instructions);
    }
  }

  lemma AppendTwo(c: Code, a: Item, b: Item)
    ensures AppendAll(c, [a, b]) == Append(Append(c, a), b)
  {
    assert [a, b][1..] == [b] && [b][1..] == [];
    assert AppendAll(Append(c, a), [b]) == AppendAll(Append(Append(c, a), b), []);
  }
}
