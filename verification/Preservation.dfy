/** `Assemble` on tame programs: it succeeds, keeps the meaning, and its output is valid machine code. */
module Preservation {
  import opened Results
  import opened Words
  import opened Bpf
  import opened Labelled
  import opened Assembler
  import opened Resolution

  /** The invariant with the exact number of copies made so far. */
  ghost predicate Counted(c: Code, d: Code, v: View, r: nat) {
    && Under(c, d, v, r) && r <= |c.jumps|
    && v.cut == CutAfter(c, r)
    && |d.instrs| == |c.instrs| + CopiesAfter(c, r)
  }

  lemma OneExit(c: Code, r: nat)
    requires Tame(c) && r < |c.jumps|
    ensures !(IsExit(c, r, true) && IsExit(c, r, false))
  {
    hide Tame;
    EdgeOf(c, r, true);
  }

  lemma ResolveJumpIs(d: Code, r: nat, d1: Code, t: int, d2: Code, f: int)
    requires Ready(d) && r < |d.jumps|
    requires Resolves(d, r, d.jumps[r].onTrue, d1, t) && Resolves(d1, r, d.jumps[r].onFalse, d2, f) && t != f
    ensures r < |d1.jumps| && d1.jumps[r] == d.jumps[r]
    ensures r < |d2.jumps| && d2.jumps[r] == d.jumps[r] && IsJump(d2, d2.jumps[r].index)
    ensures ResolveJump(d, r) == (Store(d2, d2.jumps[r].index, t, f), None)
  {
    hide Ready, Resolve;
    ResolveKeepsReady(d, r, d.jumps[r].onTrue);
    ResolveKeepsReady(d1, r, d.jumps[r].onFalse);
    ReadyJump(d2, r);
  }

  /** One turn of the loop in `Assemble`: neither error arises, and the invariant moves on to the next jump. */
  lemma JumpStep(c: Code, d: Code, v: View, r: nat) returns (e: Code, w: View)
    requires Tame(c) && Counted(c, d, v, r) && r < |c.jumps|
    ensures Ready(d) && r < |d.jumps| && ResolveJump(d, r) == (e, None)
    ensures Counted(c, e, w, r + 1)
  {
    hide Tame, Ready, Under, Resolves, ResolveJump, Resolvable, Lands, TameEdge, Grown, Exact, OnlyFrom, IsExit;
    GrownOf(c, d, v, r);
    JumpNow(c, d, v, r);
    var d1, v1, t := ResolveBranch(c, d, v, r, true, 256);
    ResolvesInRange(d, r, d.jumps[r].onTrue, d1, t);
    var d2, v2, f := ResolveBranch(c, d1, v1, r, false, t);
    ResolvesInRange(d1, r, d.jumps[r].onFalse, d2, f);
    LandsApart(c, d2, v2, r, t, f);
    ResolveJumpIs(d, r, d1, t, d2, f);
    StoreKeeps(c, d2, v2, r, t, f);
    OneExit(c, r);
    e, w := Store(d2, d2.jumps[r].index, t, f), v2;
  }

  lemma ResolvesInRange(d: Code, r: nat, l: Label, e: Code, skip: int)
    requires Resolves(d, r, l, e, skip)
    ensures 0 <= skip <= 255
  {}

  /** `Assemble` succeeds on every tame program, and its output is related to its input by the invariant. */
  lemma {:induction false} AssembleTame(c: Code, d: Code, v: View, r: nat) returns (e: Code, w: View)
    requires Tame(c) && Counted(c, d, v, r)
    ensures Ready(d) && r <= |d.jumps| && AssembleFrom(d, r) == (e, None)
    ensures Counted(c, e, w, |c.jumps|)
    decreases |c.jumps| - r
  {
    hide Tame, Ready, Under, ResolveJump, CutAfter, CopiesAfter, Grown, Exact, OnlyFrom;
    GrownOf(c, d, v, r);
    SameJumps(c, d, v);
    if r == |c.jumps| {
      e, w := d, v;
    } else {
      var d1, v1 := JumpStep(c, d, v, r);
      AssembleFromStep(d, r);
      e, w := AssembleTame(c, d1, v1, r + 1);
    }
  }

  lemma SameJumps(c: Code, d: Code, v: View)
    requires Grown(c, d, v)
    ensures |d.jumps| == |c.jumps|
  {}

  /** The view of a finished program. */
  lemma Finished(c: Code) returns (e: Code, w: View)
    requires Tame(c) && Ready(c)
    ensures AssembleFrom(c, 0) == (e, None) && Counted(c, e, w, |c.jumps|)
  {
    hide Ready, Under;
    Start(c);
    e, w := AssembleTame(c, c, View(seq(|c.instrs| + 1, x => x), 0), 0);
  }

  // ---- meaning ----

  lemma {:induction false} JumpAtFinds(jumps: seq<JumpRef>, q: nat)
    requires q < |jumps| && Ascending(jumps)
    ensures JumpAt(jumps, jumps[q].index) == Some(jumps[q])
  {
    if q > 0 {
      assert jumps[0].index < jumps[q].index;
      JumpAtFinds(jumps[1..], q - 1);
    }
  }

  lemma TameAscends(c: Code)
    requires Tame(c)
    ensures Ascending(c.jumps)
  {}

  /** A jump of the labelled program goes to its single destination. */
  lemma LabelledJump(c: Code, x: Index) returns (q: nat)
    requires Tame(c) && x < |c.instrs| && c.instrs[x].JumpIf?
    ensures q < |c.jumps| && Source(c, q) == x && JumpAt(c.jumps, x) == Some(c.jumps[q])
    ensures forall b :: FirstAfter(Positions(c, LabelOf(c.jumps[q], b)), x) == Some(Dest(c, q, b))
  {
    hide Tame;
    q := JumpOf(c, x);
    TameAscends(c);
    JumpAtFinds(c.jumps, q);
    EdgeOf(c, q, true);
    EdgeOf(c, q, false);
  }

  lemma NextPlace(c: Code, d: Code, v: View, x: Index)
    requires Grown(c, d, v) && x < |c.instrs|
    ensures |v.pos| == |c.instrs| + 1 && v.pos[x] < |d.instrs| && Erase(d.instrs[v.pos[x]]) == Erase(c.instrs[x])
    ensures !c.instrs[x].JumpIf? ==> d.instrs[v.pos[x]] == c.instrs[x] && v.pos[x + 1] == v.pos[x] + 1
  {}

  lemma LoadIsFollowed(c: Code, x: Index)
    requires Tame(c) && x < |c.instrs|
    ensures c.instrs[x].LoadAbsolute? ==> x + 1 < |c.instrs|
    ensures !c.instrs[x].Jump?
  {}

  /** One step of a run, with every suffix taken of the whole program. */
  lemma RunStep(prog: seq<Instr>, p: nat, acc: uint32, env: Env)
    requires p < |prog|
    ensures Run(prog[p..], acc, env)
            == var i := prog[p];
               if i.RetConstant? then Verdict(i.ret)
               else if i.LoadAbsolute? then
                 var w := Fetch(env, i.off, i.size);
                 if w.None? then Fault else Run(prog[p + 1..], w.value, env)
               else
                 var e := p + 1 + (if i.Jump? then i.skip else if Passes(i.test, acc, i.val) then i.skipTrue else i.skipFalse);
                 if e > |prog| then Fault else Run(prog[e..], acc, env)
  {
    hide Fetch, Passes;
    var rest := prog[p..];
    assert rest[0] == prog[p];
    assert forall k :: 0 <= k <= |rest| ==> rest[k..] == prog[p + k..];
  }

  /** The resolved program, run from the place of any original instruction, does what the labelled program does from there. */
  lemma {:induction false} FinishedMeans(c: Code, d: Code, v: View, x: Index, acc: uint32, env: Env)
    requires Tame(c) && Under(c, d, v, |c.jumps|) && x < |c.instrs|
    ensures |v.pos| == |c.instrs| + 1 && v.pos[x] <= |d.instrs|
    ensures Run(d.instrs[v.pos[x]..], acc, env) == RunLabelled(c, x, acc, env)
    decreases |c.instrs| - x, 1
  {
    hide Tame, Under, Grown, TameEdge, Fetch, Run, Passes;
    GrownOf(c, d, v, |c.jumps|);
    NextPlace(c, d, v, x);
    LoadIsFollowed(c, x);
    RunStep(d.instrs, v.pos[x], acc, env);
    match c.instrs[x]
    case RetConstant(_) =>
    case LoadAbsolute(off, size) =>
      if Fetch(env, off, size).Some? {
        FinishedMeans(c, d, v, x + 1, Fetch(env, off, size).value, env);
      }
    case JumpIf(test, val, _, _) =>
      var q := LabelledJump(c, x);
      FinishedBranch(c, d, v, q, Passes(test, acc, val), acc, env);
  }

  lemma {:induction false} FinishedBranch(c: Code, d: Code, v: View, q: nat, b: bool, acc: uint32, env: Env)
    requires Tame(c) && Under(c, d, v, |c.jumps|) && q < |c.jumps|
    ensures Source(c, q) < Dest(c, q, b) < |c.instrs|
    ensures |v.pos| == |c.instrs| + 1 && v.pos[Source(c, q)] < |d.instrs|
    ensures var p := v.pos[Source(c, q)];
            d.instrs[p].JumpIf? && p + 1 + StoredSkip(d.instrs[p], b) < |d.instrs|
            && Run(d.instrs[p + 1 + StoredSkip(d.instrs[p], b)..], acc, env) == RunLabelled(c, Dest(c, q, b), acc, env)
    decreases |c.instrs| - Source(c, q), 0
  {
    hide Tame, Under, Grown, TameEdge, Run, RunLabelled, NextRet;
    GrownOf(c, d, v, |c.jumps|);
    LandedOf(c, d, v, |c.jumps|, q, b);
    EdgeBounds(c, q, b);
    LandingInside(c, d, v, q, b);
    RefOf(c, d, v, q);
    var p, t := v.pos[Source(c, q)], Dest(c, q, b);
    var e := p + 1 + StoredSkip(d.instrs[p], b);
    if e == v.pos[t] {
      FinishedMeans(c, d, v, t, acc, env);
    } else {
      ExitIsReturn(c, q, b);
      ReturnAt(d.instrs[e..], acc, env);
      LabelledReturn(c, t, acc, env);
    }
  }

  lemma ReturnAt(prog: seq<Instr>, acc: uint32, env: Env)
    requires prog != [] && prog[0].RetConstant?
    ensures Run(prog, acc, env) == Verdict(prog[0].ret)
  {}

  lemma LabelledReturn(c: Code, t: Index, acc: uint32, env: Env)
    requires t < |c.instrs| && c.instrs[t].RetConstant?
    ensures RunLabelled(c, t, acc, env) == Verdict(c.instrs[t].ret)
  {}

  lemma EdgeBounds(c: Code, q: nat, b: bool)
    requires Tame(c) && q < |c.jumps|
    ensures Source(c, q) < Dest(c, q, b) < |c.instrs|
  {
    hide Tame;
    EdgeOf(c, q, b);
  }

  lemma LandingInside(c: Code, d: Code, v: View, q: nat, b: bool)
    requires Landed(c, d, v, q, b)
    ensures q < |c.jumps| && Source(c, q) < |v.pos| && v.pos[Source(c, q)] < |d.instrs|
    ensures var p := v.pos[Source(c, q)];
            d.instrs[p].JumpIf? && p + 1 + StoredSkip(d.instrs[p], b) < |d.instrs|
  {
    hide Grown;
    RefOf(c, d, v, q);
    PosGap(c, d, v, v.cut, |c.instrs|);
    PosGap(c, d, v, Dest(c, q, b), |c.instrs|);
    PosGap(c, d, v, Source(c, q), |c.instrs|);
  }

  /** Label resolution preserves meaning, from any accumulator and on any data, for tame programs of every length
      and with any number of copies; it reports no error. */
  lemma ResolutionKeepsMeaning(c: Code, acc: uint32, env: Env)
    requires Tame(c) && Ready(c)
    ensures AssembleFrom(c, 0).1.None?
    ensures Run(AssembleFrom(c, 0).0.instrs, acc, env) == RunLabelled(c, 0, acc, env)
  {
    hide Ready, Under;
    var e, w := Finished(c);
    FinishedMeans(c, e, w, 0, acc, env);
    FirstPlace(c, e, w);
    assert e.instrs[0..] == e.instrs;
  }

  lemma FirstPlace(c: Code, d: Code, v: View)
    requires Tame(c) && Under(c, d, v, |c.jumps|)
    ensures |v.pos| == |c.instrs| + 1 && v.pos[0] == 0
  {}

  // ---- validity of the output ----

  predicate ValidLoad(i: Instr) { i.LoadAbsolute? ==> i.size == 4 && i.off % 4 == 0 && i.off + 4 <= 64 }

  /** Every branch goes forward and stays inside, every load is an aligned word of the record, and nothing runs off the end. */
  predicate Valid(prog: seq<Instr>) {
    && prog != [] && prog[|prog| - 1].RetConstant?
    && forall p :: 0 <= p < |prog| ==> ValidAt(prog, p)
  }

  predicate ValidAt(prog: seq<Instr>, p: nat)
    requires p < |prog|
  {
    match prog[p]
    case RetConstant(_) => true
    case LoadAbsolute(_, _) => ValidLoad(prog[p])
    case Jump(skip) => p + 1 + skip < |prog|
    case JumpIf(_, _, t, f) => p + 1 + t < |prog| && p + 1 + f < |prog|
  }

  lemma ValidOf(prog: seq<Instr>, p: nat)
    requires Valid(prog) && p < |prog|
    ensures ValidAt(prog, p) && (p + 1 == |prog| ==> prog[p].RetConstant?)
  {}

  lemma LoadSucceeds(i: Instr, env: Env)
    requires i.LoadAbsolute? && ValidLoad(i) && |env.data| == 64
    ensures Fetch(env, i.off, i.size).Some?
  {}

  /** A valid program halts at a return, whatever the record and the accumulator. */
  lemma {:induction false} ValidReturns(prog: seq<Instr>, p: nat, acc: uint32, env: Env)
    requires Valid(prog) && p < |prog| && |env.data| == 64
    ensures Run(prog[p..], acc, env).Verdict?
    decreases |prog| - p
  {
    hide Fetch, Valid, Run, Passes;
    ValidOf(prog, p);
    RunStep(prog, p, acc, env);
    match prog[p]
    case RetConstant(_) =>
    case LoadAbsolute(off, size) =>
      LoadSucceeds(prog[p], env);
      ValidReturns(prog, p + 1, Fetch(env, off, size).value, env);
    case Jump(skip) =>
      ValidReturns(prog, p + 1 + skip, acc, env);
    case JumpIf(test, val, t, f) =>
      ValidReturns(prog, p + 1 + (if Passes(test, acc, val) then t else f), acc, env);
  }

  predicate ValidLoads(instrs: seq<Instr>) { forall p :: 0 <= p < |instrs| ==> ValidLoad(instrs[p]) }

  predicate NoLongJump(instrs: seq<Instr>) { forall p :: 0 <= p < |instrs| ==> !instrs[p].Jump? }

  /** Resolution turns a tame program with good loads into valid code without long jumps that still ends in the same return. */
  lemma ResolutionIsValid(c: Code)
    requires Tame(c) && Ready(c) && ValidLoads(c.instrs)
    ensures AssembleFrom(c, 0).1.None?
    ensures var prog := AssembleFrom(c, 0).0.instrs;
            Valid(prog) && NoLongJump(prog) && ValidLoads(prog)
            && prog[|prog| - 1] == c.instrs[|c.instrs| - 1]
            && |prog| == |c.instrs| + CopiesAfter(c, |c.jumps|)
  {
    hide Ready, Under, Tame, AssembleFrom, Grown, Exact, OnlyFrom, ValidAt, CopiesAfter, CutAfter;
    var e, w := Finished(c);
    GrownOf(c, e, w, |c.jumps|);
    LastPlace(c, e, w);
    forall p | 0 <= p < |e.instrs| ensures ValidAt(e.instrs, p) && !e.instrs[p].Jump? && ValidLoad(e.instrs[p]) {
      OutputAt(c, e, w, p);
    }
  }

  lemma OutputAt(c: Code, e: Code, w: View, p: nat)
    requires Tame(c) && Under(c, e, w, |c.jumps|) && p < |e.instrs| && ValidLoads(c.instrs)
    ensures ValidAt(e.instrs, p) && !e.instrs[p].Jump? && ValidLoad(e.instrs[p])
  {
    hide Ready, Under, Tame, Grown, OnlyFrom, Landed;
    GrownOf(c, e, w, |c.jumps|);
    OriginOf(c, e, p);
    if e.instrs[p].JumpIf? {
      var q :| 0 <= q < |e.jumps| && e.jumps[q].index == p;
      SameJumps(c, e, w);
      RefOf(c, e, w, q);
      LandedOf(c, e, w, |c.jumps|, q, true);
      LandedOf(c, e, w, |c.jumps|, q, false);
      LandingInside(c, e, w, q, true);
      LandingInside(c, e, w, q, false);
    }
  }

  lemma LastPlace(c: Code, d: Code, v: View)
    requires Tame(c) && Grown(c, d, v)
    ensures |c.instrs| > 0 && |d.instrs| > 0 && d.instrs[|d.instrs| - 1] == c.instrs[|c.instrs| - 1]
    ensures c.instrs[|c.instrs| - 1].RetConstant?
  {
    hide Grown;
    NextPlace(c, d, v, |c.instrs| - 1);
    PosEnd(c, d, v);
  }

  lemma PosEnd(c: Code, d: Code, v: View)
    requires Grown(c, d, v)
    ensures |v.pos| == |c.instrs| + 1 && v.pos[|c.instrs|] == |d.instrs|
  {}

  /** Everything in the output other than a conditional jump comes from the input. */
  lemma OriginOf(c: Code, d: Code, p: nat)
    requires Tame(c) && OnlyFrom(c, d) && p < |d.instrs| && ValidLoads(c.instrs)
    ensures !d.instrs[p].Jump? && ValidLoad(d.instrs[p])
  {
    if !d.instrs[p].JumpIf? {
      assert d.instrs[p] in c.instrs;
      var x :| 0 <= x < |c.instrs| && c.instrs[x] == d.instrs[p];
    }
  }
}
