/** Single turns of `Assemble`, and what the turns after them leave alone. */
module Turns {
  import opened Results
  import opened Words
  import opened Bpf
  import opened Labelled
  import opened Assembler
  import opened Resolution
  import opened Acceptance

  // ---- the shapes a turn can take ----

  lemma PlacedAt(c: Code, j: JumpRef, l: Label, at: Index, inst: Instr)
    requires l in c.labels && at <= |c.instrs|
    ensures Placed(c, j, l, at, inst).instrs == c.instrs[..at] + [inst] + c.instrs[at..]
    ensures Placed(c, j, l, at, inst).jumps == ShiftJumps(c.jumps, at)
  {}

  lemma PoppedAt(c: Code, j: JumpRef, l: Label)
    requires l in c.labels
    ensures Popped(c, j, l).instrs == c.instrs && Popped(c, j, l).jumps == c.jumps
  {}

  /** A jump whose true branch is far and whose false branch is near. */
  lemma FarNear(c: Code, r: nat) returns (d: Code, at: Index, inst: Instr)
    requires Ready(c) && r < |c.jumps| && c.jumps[r].onTrue != c.jumps[r].onFalse
    requires var i := c.jumps[r].index;
             && Way(c, c.jumps[r].onTrue, i).Some? && Way(c, c.jumps[r].onTrue, i).value - i - 1 > 255
             && Way(c, c.jumps[r].onFalse, i) == Some(i + 1)
    requires InsertionPoint(c.jumps, c.jumps[r]).index > c.jumps[r].index
    ensures var i := c.jumps[r].index;
            && at == InsertionPoint(c.jumps, c.jumps[r]).index + 1 && i < at <= i + 255 && at <= |c.instrs|
            && Way(c, c.jumps[r].onTrue, i).value < |c.instrs|
            && inst == (var dest := Way(c, c.jumps[r].onTrue, i).value;
                        if c.instrs[dest].RetConstant? then c.instrs[dest] else Jump((dest - i - at) % TWO_TO_32))
            && i < |d.instrs| == |c.instrs| + 1 && (c.instrs[..at] + [inst] + c.instrs[at..])[i].JumpIf?
            && d.instrs == (c.instrs[..at] + [inst] + c.instrs[at..])[i := (c.instrs[..at] + [inst] + c.instrs[at..])[i]
                             .(skipTrue := at - 1 - i, skipFalse := 0)]
            && d.jumps == ShiftJumps(c.jumps, at)
            && ResolveJump(c, r) == (d, None) && Ready(d)
            && (forall m, k :: k >= i ==>
                  Way(d, m, ShiftIndex(k, at)) == WayPast(c, c.jumps[r].onTrue, at, m, k))
  {
    hide Ready, Resolve, Placed, Popped, WayPast;
    var j, i := c.jumps[r], c.jumps[r].index;
    at, inst := FarStep(c, j, j.onTrue);
    var d1 := Placed(c, j, j.onTrue, at, inst);
    ResolveKeepsReady(c, r, j.onTrue);
    PlacedAt(c, j, j.onTrue, at, inst);
    FarWay(c, j, j.onTrue, at, inst, j.onFalse, i);
    NoShift(c, j.onTrue, at, j.onFalse, i);
    ReadyJump(d1, r);
    NearStep(d1, j, j.onFalse);
    ResolveKeepsReady(d1, r, j.onFalse);
    var e := Popped(d1, j, j.onFalse);
    PoppedAt(d1, j, j.onFalse);
    ResolveJumpOf(c, r, d1, at - 1 - i, e, 0);
    ResolveJumpKeepsReady(c, r);
    d := Store(e, i, at - 1 - i, 0);
    forall m, k | k >= i ensures Way(d, m, ShiftIndex(k, at)) == WayPast(c, j.onTrue, at, m, k) {
      FarWay(c, j, j.onTrue, at, inst, m, k);
      NearWay(d1, j, j.onFalse, m, ShiftIndex(k, at));
      assert Way(d, m, ShiftIndex(k, at)) == Way(e, m, ShiftIndex(k, at));
    }
  }

  lemma NoShift(c: Code, l: Label, at: Index, m: Label, i: Index)
    requires m != l && i + 1 <= at && Way(c, m, i) == Some(i + 1)
    ensures i + 1 < at ==> WayPast(c, l, at, m, i) == Some(i + 1)
    ensures ShiftIndex(i, at) == i
  {}

  /** A jump both of whose branches are near. */
  lemma NearNear(c: Code, r: nat) returns (d: Code)
    requires Ready(c) && r < |c.jumps|
    requires var i := c.jumps[r].index;
             var t, f := Way(c, c.jumps[r].onTrue, i), Way(c, c.jumps[r].onFalse, i);
             t.Some? && f.Some? && t != f && t.value - i - 1 <= 255 && f.value - i - 1 <= 255
    ensures var i := c.jumps[r].index;
            && IsJump(c, i) && ResolveJump(c, r) == (d, None) && Ready(d)
            && d.instrs == c.instrs[i := c.instrs[i].(skipTrue := Way(c, c.jumps[r].onTrue, i).value - i - 1,
                                                      skipFalse := Way(c, c.jumps[r].onFalse, i).value - i - 1)]
            && d.jumps == c.jumps
            && (forall m, k :: k >= i ==> Way(d, m, k) == Way(c, m, k))
  {
    hide Ready, Resolve, ResolveJump, Way, Popped;
    var j, i := c.jumps[r], c.jumps[r].index;
    var t, f := Way(c, j.onTrue, i).value - i - 1, Way(c, j.onFalse, i).value - i - 1;
    WayHasPositions(c, j.onTrue, i);
    WayHasPositions(c, j.onFalse, i);
    ReadyJump(c, r);
    NearStep(c, j, j.onTrue);
    ResolveKeepsReady(c, r, j.onTrue);
    var e := Popped(c, j, j.onTrue);
    PoppedAt(c, j, j.onTrue);
    NearWay(c, j, j.onTrue, j.onFalse, i);
    NearStep(e, j, j.onFalse);
    ResolveKeepsReady(e, r, j.onFalse);
    var g := Popped(e, j, j.onFalse);
    PoppedAt(e, j, j.onFalse);
    ResolveJumpOf(c, r, e, t, g, f);
    ResolveJumpKeepsReady(c, r);
    d := Store(g, i, t, f);
    forall m, k | k >= i ensures Way(d, m, k) == Way(c, m, k) {
      NearWay(c, j, j.onTrue, m, k);
      NearWay(e, j, j.onFalse, m, k);
      SamePositions(g, i, t, f, m, k);
    }
  }

  lemma SamePositions(c: Code, i: Index, t: uint8, f: uint8, m: Label, k: Index)
    requires IsJump(c, i)
    ensures Way(Store(c, i, t, f), m, k) == Way(c, m, k)
  {}

  lemma WayInside(c: Code, l: Label, i: Index)
    requires Ready(c)
    ensures Way(c, l, i).Some? ==> Way(c, l, i).value < |c.instrs|
  {
    DropUpToIsSuffix(Positions(c, l), i);
  }

  // ---- turns that insert nothing ----

  predicate NearOrNone(w: Option<Index>, i: Index) { w.Some? ==> w.value - i - 1 <= 255 }

  predicate NearWays(c: Code, q: nat)
    requires q < |c.jumps|
  {
    var j := c.jumps[q];
    NearOrNone(Way(c, j.onTrue, j.index), j.index) && NearOrNone(Way(c, j.onFalse, j.index), j.index)
  }

  ghost predicate AllNear(c: Code, r: nat) { forall q :: r <= q < |c.jumps| ==> NearWays(c, q) }

  /** Only jumps from `i` on may differ. */
  predicate SameBut(c: Code, d: Code, i: Index) {
    && |d.instrs| == |c.instrs| && d.jumps == c.jumps
    && forall p :: 0 <= p < |c.instrs| && (p < i || !c.instrs[p].JumpIf?) ==> d.instrs[p] == c.instrs[p]
  }

  lemma NoWay(c: Code, j: JumpRef, l: Label)
    requires Ready(c) && j in c.jumps && Positions(c, l) != [] && Way(c, l, j.index).None?
    ensures Resolve(c, j, l).1.Err? && Resolve(c, j, l).0.instrs == c.instrs && Resolve(c, j, l).0.jumps == c.jumps
  {
    hide Ready, Resolve, Reach;
    ResolveCases(c, j, l);
  }

  lemma ResolveNearOrNone(c: Code, r: nat, l: Label)
    requires Ready(c) && r < |c.jumps| && Positions(c, l) != [] && NearOrNone(Way(c, l, c.jumps[r].index), c.jumps[r].index)
    ensures var (d, s) := Resolve(c, c.jumps[r], l);
            && d.instrs == c.instrs && d.jumps == c.jumps
            && (s.Ok? ==> forall m, k :: k >= c.jumps[r].index ==> Way(d, m, k) == Way(c, m, k))
  {
    hide Ready, Resolve, Way, Popped;
    var j := c.jumps[r];
    ResolveKeepsReady(c, r, l);
    if Way(c, l, j.index).None? {
      NoWay(c, j, l);
    } else {
      NearStep(c, j, l);
      PoppedAt(c, j, l);
      forall m, k | k >= j.index ensures Way(Popped(c, j, l), m, k) == Way(c, m, k) {
        NearWay(c, j, l, m, k);
      }
    }
  }

  lemma JumpInsertsNothing(c: Code, r: nat)
    requires Ready(c) && r < |c.jumps| && AllNear(c, r)
    ensures var (d, e) := ResolveJump(c, r);
            Ready(d) && SameBut(c, d, c.jumps[r].index) && (e.None? ==> AllNear(d, r + 1))
  {
    hide Ready, Resolve, Way, NearOrNone;
    var j := c.jumps[r];
    ResolveJumpKeepsReady(c, r);
    ReadyJump(c, r);
    assert NearWays(c, r);
    ResolveNearOrNone(c, r, j.onTrue);
    ResolveKeepsReady(c, r, j.onTrue);
    var (d, t) := Resolve(c, j, j.onTrue);
    if t.Ok? {
      ReadyJump(d, r);
      ResolveNearOrNone(d, r, j.onFalse);
      ResolveKeepsReady(d, r, j.onFalse);
      var (e, f) := Resolve(d, j, j.onFalse);
      ReadyJump(e, r);
      ReadyAscends(c);
      if f.Ok? && !(t.value == 0 && f.value == 0) {
        var g := Store(e, j.index, t.value, f.value);
        assert ResolveJump(c, r) == (g, None);
        forall q | r + 1 <= q < |g.jumps| ensures NearWays(g, q) {
          assert NearWays(c, q);
          SamePositions(e, j.index, t.value, f.value, c.jumps[q].onTrue, c.jumps[q].index);
          SamePositions(e, j.index, t.value, f.value, c.jumps[q].onFalse, c.jumps[q].index);
        }
      }
    }
  }

  /** When all remaining branches are near, the rest of `Assemble` inserts nothing and writes only to remaining jumps. */
  lemma {:induction false} AssembleInsertsNothing(c: Code, r: nat)
    requires Ready(c) && r <= |c.jumps| && AllNear(c, r)
    ensures SameBut(c, AssembleFrom(c, r).0, if r < |c.jumps| then c.jumps[r].index else |c.instrs|)
    decreases |c.jumps| - r
  {
    hide Ready, ResolveJump, NearWays;
    if r < |c.jumps| {
      AssembleFromStep(c, r);
      JumpInsertsNothing(c, r);
      ReadyAscends(c);
      if ResolveJump(c, r).1.None? {
        AssembleInsertsNothing(ResolveJump(c, r).0, r + 1);
      }
    }
  }

  // ---- turns that insert only further on ----

  /** Jump number `k` stands at 258, and the jumps still to come are far enough on to insert only behind it. */
  ghost predicate Settled(c: Code, r: nat, k: nat, head: Instr, v: uint32) {
    && |c.instrs| > 258 && c.instrs[0] == head && c.instrs[255] == RetConstant(v)
    && k < |c.jumps| && c.jumps[k].index == 258
    && (r < |c.jumps| ==> c.jumps[r].index >= 4)
  }

  lemma ResolveKeepsSettled(c: Code, r: nat, l: Label, k: nat, head: Instr, v: uint32)
    requires Ready(c) && r < |c.jumps| && Positions(c, l) != [] && Settled(c, r, k, head, v)
    ensures Settled(Resolve(c, c.jumps[r], l).0, r, k, head, v)
  {
    hide Ready, Resolve, Reach;
    var j := c.jumps[r];
    ReadyAscends(c);
    ResolveKeepsReady(c, r, l);
    ResolveCases(c, j, l);
    if DropUpTo(c.labels[l], j.index) != [] {
      ReachCases(Popped(c, j, l), j, l);
      InsertionPointAtLeast(c.jumps, j, k);
    }
  }

  lemma JumpKeepsSettled(c: Code, r: nat, k: nat, head: Instr, v: uint32)
    requires Ready(c) && r < |c.jumps| && Settled(c, r, k, head, v)
    ensures Ready(ResolveJump(c, r).0) && |ResolveJump(c, r).0.jumps| == |c.jumps|
    ensures Settled(ResolveJump(c, r).0, r + 1, k, head, v)
  {
    hide Ready, Resolve;
    var j := c.jumps[r];
    ResolveJumpKeepsReady(c, r);
    ReadyJump(c, r);
    ResolveKeepsReady(c, r, j.onTrue);
    ResolveKeepsSettled(c, r, j.onTrue, k, head, v);
    var (d, t) := Resolve(c, j, j.onTrue);
    ReadyAscends(d);
    if t.Ok? {
      ReadyJump(d, r);
      ResolveKeepsReady(d, r, j.onFalse);
      ResolveKeepsSettled(d, r, j.onFalse, k, head, v);
      var (e, f) := Resolve(d, j, j.onFalse);
      ReadyJump(e, r);
      ReadyAscends(e);
    }
  }

  lemma {:induction false} AssembleKeepsSettled(c: Code, r: nat, k: nat, head: Instr, v: uint32)
    requires Ready(c) && r <= |c.jumps| && Settled(c, r, k, head, v)
    ensures var d := AssembleFrom(c, r).0; Settled(d, |d.jumps|, k, head, v)
    decreases |c.jumps| - r
  {
    hide Ready, ResolveJump;
    if r < |c.jumps| {
      AssembleFromStep(c, r);
      JumpKeepsSettled(c, r, k, head, v);
      if ResolveJump(c, r).1.None? {
        AssembleKeepsSettled(ResolveJump(c, r).0, r + 1, k, head, v);
      }
    }
  }

  /** A check that skips to 255 when `acc` passes its test. */
  lemma SkipRun(prog: seq<Instr>, test: Test, val: uint32, v: uint32, acc: uint32, env: Env)
    requires |prog| > 255 && prog[0] == JumpIf(test, val, 254, 0) && prog[255] == RetConstant(v) && Passes(test, acc, val)
    ensures Run(prog, acc, env) == Verdict(v)
  {
    assert prog[255..][0] == prog[255];
  }
}
