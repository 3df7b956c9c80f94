/** What one step of resolution does to any program: the tables stay well formed, the skip is exact, and placing a copy
    of a return keeps the meaning of the labels. */
module Insertion {
  import opened Results
  import opened Words
  import opened Bpf
  import opened Labelled
  import opened Assembler
  import opened Resolution

  // ---- the tables stay well formed ----

  predicate Ordered(ps: seq<Index>) { forall i, j :: 0 <= i < j < |ps| ==> ps[i] <= ps[j] }

  predicate AtMost(ps: seq<Index>, n: nat) { forall k :: 0 <= k < |ps| ==> ps[k] <= n }

  /** The jump table is strictly increasing and lists exactly the conditional jumps; label positions are ascending and
      in bounds. */
  ghost predicate Sound(c: Code) {
    && Ascending(c.jumps)
    && (forall q :: 0 <= q < |c.jumps| ==> IsJump(c, c.jumps[q].index))
    && Exact(c)
    && (forall l :: l in c.labels ==> Ordered(c.labels[l]) && AtMost(c.labels[l], |c.instrs|))
  }

  lemma EmptySound()
    ensures Sound(EMPTY)
  {}

  /** Every builder call keeps the tables well formed. */
  lemma AppendKeepsSound(c: Code, it: Item)
    requires Sound(c)
    ensures Sound(Append(c, it))
  {
    var d := Append(c, it);
    AppendKeepsJumps(c, it);
    forall l | l in d.labels ensures Ordered(d.labels[l]) && AtMost(d.labels[l], |d.instrs|) {
      if l in c.labels {
        assert Ordered(c.labels[l]) && AtMost(c.labels[l], |c.instrs|);
      }
    }
  }

  lemma AppendKeepsJumps(c: Code, it: Item)
    requires Sound(c)
    ensures var d := Append(c, it);
            Ascending(d.jumps) && Exact(d) && forall q :: 0 <= q < |d.jumps| ==> IsJump(d, d.jumps[q].index)
  {
    var d := Append(c, it);
    forall q | 0 <= q < |d.jumps| ensures IsJump(d, d.jumps[q].index) {
      if q < |c.jumps| {
        assert IsJump(c, c.jumps[q].index);
      }
    }
    forall p, q | 0 <= p < q < |d.jumps| ensures d.jumps[p].index < d.jumps[q].index {
      assert IsJump(c, c.jumps[p].index);
    }
    forall i | 0 <= i < |d.instrs| && d.instrs[i].JumpIf? ensures exists q :: 0 <= q < |d.jumps| && d.jumps[q].index == i {
      if i < |c.instrs| {
        assert c.instrs[i].JumpIf?;
        var q :| 0 <= q < |c.jumps| && c.jumps[q].index == i;
        assert d.jumps[q].index == i;
      } else {
        assert d.jumps[|c.jumps|].index == i;
      }
    }
  }

  lemma RelabelKeepsSound(c: Code, l: Label, ps: seq<Index>)
    requires Sound(c) && Ordered(ps) && AtMost(ps, |c.instrs|)
    ensures Sound(Relabel(c, l, ps))
  {}

  lemma ShiftKeepsOrder(ps: seq<Index>, at: Index, n: nat)
    requires Ordered(ps) && AtMost(ps, n)
    ensures Ordered(ShiftAll(ps, at)) && AtMost(ShiftAll(ps, at), n + 1)
  {}

  lemma InsertKeepsSound(c: Code, at: Index, inst: Instr)
    requires Sound(c) && at <= |c.instrs| && !inst.JumpIf?
    ensures Sound(Insert(c, at, inst))
  {
    var d := Insert(c, at, inst);
    forall q | 0 <= q < |d.jumps| ensures IsJump(d, d.jumps[q].index) {
      assert IsJump(c, c.jumps[q].index);
      InsertAt(c, at, inst, c.jumps[q].index);
    }
    forall p, q | 0 <= p < q < |d.jumps| ensures d.jumps[p].index < d.jumps[q].index {
      assert c.jumps[p].index < c.jumps[q].index;
    }
    forall i | 0 <= i < |d.instrs| && d.instrs[i].JumpIf? ensures exists q :: 0 <= q < |d.jumps| && d.jumps[q].index == i {
      var o := if i < at then i else i - 1;
      assert d.instrs[i] == c.instrs[o];
      var q :| 0 <= q < |c.jumps| && c.jumps[q].index == o;
      assert d.jumps[q].index == i;
    }
    forall l | l in d.labels ensures Ordered(d.labels[l]) && AtMost(d.labels[l], |d.instrs|) {
      ShiftKeepsOrder(c.labels[l], at, |c.instrs|);
    }
  }

  /** Every resolution of a label keeps the tables well formed, whether it pops, inserts or fails. */
  lemma ResolveKeepsSound(c: Code, j: JumpRef, l: Label)
    requires Ready(c) && Sound(c) && j in c.jumps && Positions(c, l) != []
    ensures Sound(Resolve(c, j, l).0)
  {
    hide Ready, Sound, Resolve, Reach, InsertFor, Ordered, AtMost, Trampoline;
    ResolveCases(c, j, l);
    var dest := DropUpTo(c.labels[l], j.index);
    PopKeepsSound(c, l, j.index);
    if dest != [] {
      var popped := Relabel(c, l, dest);
      ReachCases(popped, j, l);
      if dest[0] - j.index - 1 > MAX_UINT8 {
        var at := InsertionPoint(c.jumps, j).index + 1;
        var inst := Trampoline(popped, dest[0], dest[0] - j.index - 1, at - 1);
        NoTrampolineJumps(popped, dest[0], dest[0] - j.index - 1, at - 1);
        InsertForKeepsSound(popped, at, inst, l);
      }
    }
  }

  lemma NoTrampolineJumps(c: Code, dest: Index, skipN: int, after: Index)
    requires dest < |c.instrs|
    ensures !Trampoline(c, dest, skipN, after).JumpIf?
  {}

  lemma InsertForKeepsSound(c: Code, at: Index, inst: Instr, l: Label)
    requires Sound(c) && at <= |c.instrs| && !inst.JumpIf?
    requires l in c.labels && c.labels[l] != [] && at <= c.labels[l][0]
    ensures Sound(InsertFor(c, at, inst, l))
  {
    hide Sound;
    var ps := c.labels[l];
    SoundLabel(c, l);
    InsertKeepsSound(c, at, inst);
    InsertLength(c, at, inst);
    ShiftKeepsOrder(ps, at, |c.instrs|);
    RelabelKeepsSound(Insert(c, at, inst), l, [at] + ShiftAll(ps, at));
  }

  lemma PopKeepsSound(c: Code, l: Label, i: Index)
    requires Sound(c) && l in c.labels && c.labels[l] != []
    ensures Sound(Relabel(c, l, DropUpTo(c.labels[l], i))) && Sound(Relabel(c, l, [c.labels[l][|c.labels[l]| - 1]]))
  {
    hide Sound;
    var ps := c.labels[l];
    SoundLabel(c, l);
    DropUpToIsSuffix(ps, i);
    RelabelKeepsSound(c, l, DropUpTo(ps, i));
    RelabelKeepsSound(c, l, [ps[|ps| - 1]]);
  }

  lemma SoundLabel(c: Code, l: Label)
    requires Sound(c) && l in c.labels
    ensures Ordered(c.labels[l]) && AtMost(c.labels[l], |c.instrs|)
  {}

  lemma StoreKeepsSound(c: Code, i: Index, t: uint8, f: uint8)
    requires Sound(c) && IsJump(c, i)
    ensures Sound(Store(c, i, t, f))
  {
    var d := Store(c, i, t, f);
    forall k | 0 <= k < |d.instrs| && d.instrs[k].JumpIf? ensures exists q :: 0 <= q < |d.jumps| && d.jumps[q].index == k {
      assert c.instrs[k].JumpIf?;
    }
  }

  lemma ResolveJumpKeepsSound(c: Code, r: nat)
    requires Ready(c) && Sound(c) && r < |c.jumps|
    ensures Sound(ResolveJump(c, r).0)
  {
    hide Ready, Sound, Resolve;
    var j := c.jumps[r];
    ReadyJump(c, r);
    ResolveKeepsReady(c, r, j.onTrue);
    ResolveKeepsSound(c, j, j.onTrue);
    var (d, t) := Resolve(c, j, j.onTrue);
    if t.Ok? {
      ReadyJump(d, r);
      ResolveKeepsReady(d, r, j.onFalse);
      ResolveKeepsSound(d, j, j.onFalse);
      var (e, f) := Resolve(d, j, j.onFalse);
      if f.Ok? {
        ReadyJump(e, r);
        StoreKeepsSound(e, j.index, t.value, f.value);
      }
    }
  }

  /** Any sequence of builder calls leaves the tables well formed. */
  lemma {:induction false} BuiltIsSound(c: Code, items: seq<Item>)
    requires Sound(c)
    ensures Sound(AppendAll(c, items))
    decreases |items|
  {
    hide Sound, Append;
    if items != [] {
      AppendKeepsSound(c, items[0]);
      BuiltIsSound(Append(c, items[0]), items[1..]);
    }
  }

  /** So does `Assemble`, from any of its turns on, and whether it succeeds or fails. */
  lemma {:induction false} AssembleKeepsSound(c: Code, r: nat)
    requires Ready(c) && Sound(c) && r <= |c.jumps|
    ensures Sound(AssembleFrom(c, r).0)
    decreases |c.jumps| - r
  {
    hide Ready, Sound, ResolveJump;
    if r < |c.jumps| {
      AssembleFromStep(c, r);
      ResolveJumpKeepsSound(c, r);
      if ResolveJump(c, r).1.None? {
        AssembleKeepsSound(ResolveJump(c, r).0, r + 1);
      }
    }
  }

  // ---- positions behind the jump ----

  /** Positions that have been popped are never needed by a later jump. */
  lemma {:induction false} PoppedNotNeeded(ps: seq<Index>, i: Index, k: Index)
    requires i <= k
    ensures FirstAfter(DropUpTo(ps, i), k) == FirstAfter(ps, k)
  {
    if ps != [] && ps[0] <= i {
      PoppedNotNeeded(ps[1..], i, k);
    }
  }

  /** Resolution succeeds if and only if some position lies past the jump, and its 8-bit result is then the untruncated
      distance to the label's first position past the jump. An insertion lands within 255 of the jump and in front of the
      old destination. */
  lemma ResolveIsExact(c: Code, j: JumpRef, l: Label)
    requires Ready(c) && j in c.jumps && Positions(c, l) != []
    ensures var (d, r) := Resolve(c, j, l);
            var first := FirstAfter(c.labels[l], j.index);
            && (r.Ok? <==> first.Some?)
            && (r.Ok? ==> FirstAfter(Positions(d, l), j.index) == Some(j.index + 1 + r.value))
            && (r.Ok? && |d.instrs| != |c.instrs| ==>
                  var at := j.index + 1 + r.value;
                  |d.instrs| == |c.instrs| + 1 && j.index < at <= j.index + 255 && at < first.value
                  && (first.value < |c.instrs| && c.instrs[first.value].RetConstant? ==> d.instrs[at] == c.instrs[first.value]))
  {
    hide Ready, Resolve, Reach;
    ResolveCases(c, j, l);
    var dest := DropUpTo(c.labels[l], j.index);
    if dest != [] {
      var popped := Relabel(c, l, dest);
      ReachCases(popped, j, l);
    }
  }

  // ---- a copy keeps the meaning ----

  lemma {:induction false} FirstAfterShifted(ps: seq<Index>, i: Index, at: Index)
    ensures FirstAfter(ShiftAll(ps, at), ShiftIndex(i, at))
            == match FirstAfter(ps, i) case None => None case Some(t) => Some(ShiftIndex(t, at))
  {
    if ps != [] && ps[0] <= i {
      assert ShiftAll(ps, at)[1..] == ShiftAll(ps[1..], at);
      FirstAfterShifted(ps[1..], i, at);
    }
  }

  lemma {:induction false} JumpAtShifted(js: seq<JumpRef>, i: Index, at: Index)
    ensures JumpAt(ShiftJumps(js, at), ShiftIndex(i, at))
            == match JumpAt(js, i) case None => None case Some(j) => Some(ShiftRef(j, at))
  {
    if js != [] && js[0].index != i {
      assert ShiftJumps(js, at)[1..] == ShiftJumps(js[1..], at);
      JumpAtShifted(js[1..], i, at);
    }
  }

  /** The copy is made for the return at the first position of `l`, right behind a conditional jump in front of it. */
  predicate CanCopy(c: Code, x: Index, l: Label) {
    && IsJump(c, x)
    && Positions(c, l) != [] && x < c.labels[l][0] < |c.instrs| && c.instrs[c.labels[l][0]].RetConstant?
    && forall i :: 0 <= i < |c.instrs| ==> !c.instrs[i].Jump?
  }

  lemma TargetAfterCopy(c: Code, x: Index, l: Label, m: Label, i: Index)
    requires CanCopy(c, x, l)
    ensures var at := x + 1;
            FirstAfter(Positions(InsertFor(c, at, c.instrs[c.labels[l][0]], l), m), ShiftIndex(i, at))
            == if m == l && i < at then Some(at)
               else match FirstAfter(Positions(c, m), i) case None => None case Some(t) => Some(ShiftIndex(t, at))
  {
    var at := x + 1;
    PositionsInserted(c, at, c.instrs[c.labels[l][0]], l, m);
    FirstAfterShifted(Positions(c, m), i, at);
    if m == l && i >= at {
      assert ([at] + ShiftAll(Positions(c, m), at))[1..] == ShiftAll(Positions(c, m), at);
    }
  }

  lemma InstrAfterCopy(c: Code, x: Index, l: Label, pc: Index)
    requires CanCopy(c, x, l) && pc < |c.instrs|
    ensures var at, d := x + 1, InsertFor(c, x + 1, c.instrs[c.labels[l][0]], l);
            && |d.instrs| == |c.instrs| + 1 && d.instrs[at] == c.instrs[c.labels[l][0]]
            && d.instrs[ShiftIndex(pc, at)] == c.instrs[pc]
            && d.jumps == ShiftJumps(c.jumps, at)
  {}

  /** One insertion step preserves the meaning of every labelled program without long jumps: the copy goes right behind
      a conditional jump, so nothing falls through into it, and every run from every original point is unchanged. */
  lemma {:induction false} CopyKeepsMeaning(c: Code, x: Index, l: Label, pc: Index, acc: uint32, env: Env)
    requires CanCopy(c, x, l)
    ensures RunLabelled(InsertFor(c, x + 1, c.instrs[c.labels[l][0]], l), ShiftIndex(pc, x + 1), acc, env)
            == RunLabelled(c, pc, acc, env)
    decreases |c.instrs| - pc
  {
    hide InsertFor, Fetch, JumpAt, FirstAfter, ShiftJumps;
    var at := x + 1;
    var d := InsertFor(c, at, c.instrs[c.labels[l][0]], l);
    InstrAfterCopy(c, x, l, c.labels[l][0]);
    if pc < |c.instrs| {
      InstrAfterCopy(c, x, l, pc);
      match c.instrs[pc]
      case RetConstant(_) =>
      case LoadAbsolute(off, size) =>
        if Fetch(env, off, size).Some? {
          CopyKeepsMeaning(c, x, l, pc + 1, Fetch(env, off, size).value, env);
        }
      case JumpIf(test, val, _, _) =>
        JumpAtShifted(c.jumps, pc, at);
        if JumpAt(c.jumps, pc).Some? {
          var j := JumpAt(c.jumps, pc).value;
          var m := if Passes(test, acc, val) then j.onTrue else j.onFalse;
          TargetAfterCopy(c, x, l, m, pc);
          if m == l && pc < at {
            FirstIsDest(c, x, l, pc);
          } else {
            FirstIsPast(Positions(c, m), pc);
            if FirstAfter(Positions(c, m), pc).Some? {
              CopyKeepsMeaning(c, x, l, FirstAfter(Positions(c, m), pc).value, acc, env);
            }
          }
        }
    }
  }

  lemma FirstIsDest(c: Code, x: Index, l: Label, pc: Index)
    requires CanCopy(c, x, l) && pc <= x
    ensures FirstAfter(Positions(c, l), pc) == Some(c.labels[l][0])
  {}

  lemma FirstIsPast(ps: seq<Index>, i: Index)
    ensures FirstAfter(ps, i).Some? ==> FirstAfter(ps, i).value > i
  {}
}
