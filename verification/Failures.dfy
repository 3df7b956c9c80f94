/** The errors of the compiler: when each of them arises, and which one is reported. */
module Failures {
  import opened Results
  import opened Words
  import opened Bpf
  import opened Labelled
  import opened Assembler
  import opened Resolution
  import opened Policies
  import opened Merge
  import opened Codegen
  import opened Compiler
  import opened Acceptance
  import opened Turns
  import opened LongJumps
  import opened Nearby

  // ---- one turn ----

  /** No other jump lies near enough behind jump `r` to insert behind it instead. */
  predicate Lone(c: Code, r: nat)
    requires r < |c.jumps|
  {
    forall k :: 0 <= k < |c.jumps| ==> !(c.jumps[r].index < c.jumps[k].index < c.jumps[r].index + 255)
  }

  lemma LoneInsertsHere(c: Code, r: nat)
    requires Ready(c) && r < |c.jumps|
    ensures InsertionPoint(c.jumps, c.jumps[r]).index == c.jumps[r].index <==> Lone(c, r)
  {
    hide Ready, InsertionPoint;
    ReadyAscends(c);
    var i, p := c.jumps[r].index, InsertionPoint(c.jumps, c.jumps[r]);
    InsertionPointRange(c, c.jumps[r]);
    var m :| 0 <= m < |c.jumps| && c.jumps[m] == p;
    if k :| 0 <= k < |c.jumps| && i < c.jumps[k].index < i + 255 {
      InsertionPointAtLeast(c.jumps, c.jumps[r], k);
    }
  }

  /** How many instructions branch `b` of jump `r` has to skip. */
  function Distance(c: Code, r: nat, b: bool): int
    requires r < |c.jumps| && BranchWay(c, r, b).Some?
  {
    BranchWay(c, r, b).value - c.jumps[r].index - 1
  }

  /** Both skips of jump `r` come out as 0: both ways are the next instruction, or what is inserted for the far ones is. */
  predicate Useless(c: Code, r: nat)
    requires r < |c.jumps| && BranchWay(c, r, true).Some? && BranchWay(c, r, false).Some?
  {
    var t, f := Distance(c, r, true), Distance(c, r, false);
    if c.jumps[r].onTrue == c.jumps[r].onFalse then t == 0 || (t > 255 && Lone(c, r))
    else (t == 0 && f == 0) || (Lone(c, r) && ((t == 0 && f > 255) || (t > 255 && f >= 255)))
  }

  /** What resolving one label gives: an error, the distance, or the way to what has been inserted. */
  lemma ResolvedSkip(c: Code, r: nat, l: Label)
    requires Ready(c) && r < |c.jumps| && Positions(c, l) != []
    ensures var i, w := c.jumps[r].index, Way(c, l, c.jumps[r].index);
            Resolve(c, c.jumps[r], l).1
            == if w.None? then Err(BackwardJump)
               else if w.value - i - 1 <= 255 then Ok(w.value - i - 1)
               else Ok(InsertionPoint(c.jumps, c.jumps[r]).index - i)
  {
    hide Ready, Resolve, Reach, InsertionPoint;
    var j := c.jumps[r];
    ResolveCases(c, j, l);
    if DropUpTo(c.labels[l], j.index) != [] {
      ReachCases(Popped(c, j, l), j, l);
    }
  }

  /** Where any label then leads from `k` on, and what the jump table is. */
  lemma ResolvedWay(c: Code, r: nat, l: Label, m: Label, k: Index)
    requires Ready(c) && r < |c.jumps| && Way(c, l, c.jumps[r].index).Some? && k >= c.jumps[r].index
    ensures Positions(c, l) != []
    ensures var d, i, w := Resolve(c, c.jumps[r], l).0, c.jumps[r].index, Way(c, l, c.jumps[r].index).value;
            var at := InsertionPoint(c.jumps, c.jumps[r]).index + 1;
            if w - i - 1 <= 255 then d.jumps == c.jumps && Way(d, m, k) == Way(c, m, k)
            else i < at && d.jumps == ShiftJumps(c.jumps, at) && Way(d, m, ShiftIndex(k, at)) == WayPast(c, l, at, m, k)
  {
    hide Ready, Resolve, Way, WayPast, Placed, Popped, InsertionPoint;
    var j := c.jumps[r];
    WayHasPositions(c, l, j.index);
    if Way(c, l, j.index).value - j.index - 1 <= 255 {
      NearStep(c, j, l);
      PoppedAt(c, j, l);
      NearWay(c, j, l, m, k);
    } else {
      var at, inst := FarStep(c, j, l);
      PlacedAt(c, j, l, at, inst);
      FarWay(c, j, l, at, inst, m, k);
    }
  }

  /** The error of a turn, put together from the two labels. */
  lemma TurnOf(c: Code, r: nat)
    requires Ready(c) && r < |c.jumps|
    ensures var j := c.jumps[r];
            && Positions(c, j.onTrue) != []
            && var (d, t) := Resolve(c, j, j.onTrue);
               StillReady(c, d, r) && Positions(d, j.onFalse) != []
               && ResolveJump(c, r).1
                  == if t.Err? then Some(t.error)
                     else
                       var f := Resolve(d, d.jumps[r], j.onFalse).1;
                       if f.Err? then Some(f.error)
                       else if t.value == 0 && f.value == 0 then Some(UselessJump)
                       else None
  {
    hide Ready, Resolve;
    var j := c.jumps[r];
    ReadyJump(c, r);
    ResolveKeepsReady(c, r, j.onTrue);
    var d := Resolve(c, j, j.onTrue).0;
    ReadyJump(d, r);
    ResolveKeepsReady(d, r, j.onFalse);
    ReadyJump(Resolve(d, j, j.onFalse).0, r);
  }

  lemma LoneShifted(c: Code, d: Code, r: nat)
    requires r < |c.jumps| && Lone(c, r) && d.jumps == ShiftJumps(c.jumps, c.jumps[r].index + 1)
    ensures Lone(d, r)
  {
    forall k | 0 <= k < |d.jumps| ensures !(d.jumps[r].index < d.jumps[k].index < d.jumps[r].index + 255) {
      assert d.jumps[k] == ShiftRef(c.jumps[k], c.jumps[r].index + 1);
    }
  }

  /** One turn fails with a backward jump if and only if one of its labels is not set behind the jump, with a useless jump if and
      only if both are and both skips come out as 0, and not otherwise. */
  lemma TurnFailsIff(c: Code, r: nat)
    requires Ready(c) && r < |c.jumps|
    ensures var t, f := BranchWay(c, r, true), BranchWay(c, r, false);
            ResolveJump(c, r).1 == if t.None? || f.None? then Some(BackwardJump)
                                   else if Useless(c, r) then Some(UselessJump)
                                   else None
  {
    hide Ready, Resolve, ResolveJump, Way, InsertionPoint, StillReady, Lone;
    var j, i := c.jumps[r], c.jumps[r].index;
    TurnOf(c, r);
    ResolvedSkip(c, r, j.onTrue);
    if BranchWay(c, r, true).Some? {
      var d := Resolve(c, j, j.onTrue).0;
      StillReadyIs(c, d, r);
      ResolvedWay(c, r, j.onTrue, j.onFalse, i);
      ResolvedSkip(d, r, j.onFalse);
      LoneInsertsHere(c, r);
      LoneInsertsHere(d, r);
      InsertionPointRange(c, j);
      WaysAhead(c, r);
      if Lone(c, r) && Distance(c, r, true) > 255 {
        LoneShifted(c, d, r);
      }
    }
  }

  lemma StillReadyIs(c: Code, d: Code, r: nat)
    requires r < |c.jumps| && StillReady(c, d, r)
    ensures Ready(d) && |d.jumps| == |c.jumps| && d.jumps[r] == c.jumps[r]
  {}

  lemma WaysAhead(c: Code, r: nat)
    requires r < |c.jumps|
    ensures forall b :: BranchWay(c, r, b).Some? ==> Distance(c, r, b) >= 0
  {
    forall b | BranchWay(c, r, b).Some? ensures Distance(c, r, b) >= 0 {
      WayIsAhead(c, r, b);
    }
  }

  const FAR_AND_NEXT :=
    Code([JumpIf(Test.Equal, 0, 0, 0)] + seq(300, _ => RetConstant(0)), [JumpRef(0, 2, 3)], map[2 := [1], 3 := [300]])

  /** Both ways being the next instruction is not the only case: here one of them is 300, and the return copied for it comes to
      stand right behind the jump. */
  lemma FarAndNextFails()
    ensures Ready(FAR_AND_NEXT) && Useless(FAR_AND_NEXT, 0)
    ensures BranchWay(FAR_AND_NEXT, 0, true) == Some(1) && BranchWay(FAR_AND_NEXT, 0, false) == Some(300)
    ensures ResolveJump(FAR_AND_NEXT, 0).1 == Some(UselessJump)
  {
    var c := FAR_AND_NEXT;
    assert c.labels[2] == [1] && c.labels[3] == [300];
    assert Resolvable(c, c.jumps[0]);
    TurnFailsIff(c, 0);
  }

  /** When another jump lies near enough behind, or the ways are near, that is the only case. */
  lemma UselessIfNext(c: Code, r: nat)
    requires Ready(c) && r < |c.jumps| && c.jumps[r].onTrue != c.jumps[r].onFalse
    requires BranchWay(c, r, true).Some? && BranchWay(c, r, false).Some?
    requires !Lone(c, r) || (Reaches(c, r, true, 255) && Reaches(c, r, false, 255))
    ensures var i := c.jumps[r].index;
            ResolveJump(c, r).1 == Some(UselessJump) <==>
            BranchWay(c, r, true) == Some(i + 1) && BranchWay(c, r, false) == Some(i + 1)
  {
    hide Ready, ResolveJump, Way, Lone;
    TurnFailsIff(c, r);
  }

  // ---- the first turn that fails ----

  /** Turn `r` is the first to fail, with error `e`. */
  ghost predicate FirstFails(c: Code, r: nat, e: AsmError)
    requires Ready(c)
  {
    && r < |c.jumps|
    && (forall q :: 0 <= q < r ==> ResolveJump(Turn(c, q), q).1.None?)
    && ResolveJump(Turn(c, r), r).1 == Some(e)
  }

  lemma {:induction false} TurnsSoFar(c: Code, r: nat)
    requires Ready(c) && r <= |c.jumps| && forall q :: 0 <= q < r ==> ResolveJump(Turn(c, q), q).1.None?
    ensures AssembleFrom(c, 0) == AssembleFrom(Turn(c, r), r)
  {
    hide Ready, ResolveJump;
    if r > 0 {
      TurnsSoFar(c, r - 1);
      AssembleFromStep(Turn(c, r - 1), r - 1);
    }
  }

  lemma {:induction false} FindFailure(c: Code, s: nat) returns (r: nat)
    requires Ready(c) && s <= |c.jumps| && AssembleFrom(c, 0).1.Some?
    requires forall q :: 0 <= q < s ==> ResolveJump(Turn(c, q), q).1.None?
    ensures FirstFails(c, r, AssembleFrom(c, 0).1.value)
    decreases |c.jumps| - s
  {
    hide Ready, ResolveJump, Turn;
    TurnsSoFar(c, s);
    if s < |c.jumps| {
      AssembleFromStep(Turn(c, s), s);
      if ResolveJump(Turn(c, s), s).1.Some? {
        r := s;
      } else {
        r := FindFailure(c, s + 1);
      }
    }
  }

  /** `Assemble` returns the error of the first turn that fails, and none if no turn does. */
  lemma AssembleFailsIff(c: Code, e: AsmError)
    requires Ready(c)
    ensures AssembleFrom(c, 0).1 == Some(e) <==> exists r :: FirstFails(c, r, e)
  {
    hide Ready, ResolveJump, Turn, AssembleFrom;
    if AssembleFrom(c, 0).1 == Some(e) {
      var r := FindFailure(c, 0);
    }
    if r :| FirstFails(c, r, e) {
      TurnsSoFar(c, r);
      AssembleFromStep(Turn(c, r), r);
    }
  }

  // ---- labels set behind all their jumps ----

  predicate Onward(c: Code, q: nat)
    requires q < |c.jumps|
  {
    BranchWay(c, q, true).Some? && BranchWay(c, q, false).Some?
  }

  ghost predicate AllOnward(c: Code, r: nat) { forall q :: r <= q < |c.jumps| ==> Onward(c, q) }

  lemma ResolvedOnward(c: Code, r: nat, l: Label, q: nat)
    requires Ready(c) && r <= q < |c.jumps| && Way(c, l, c.jumps[r].index).Some? && Onward(c, q)
    ensures Positions(c, l) != []
    ensures var d := Resolve(c, c.jumps[r], l).0; q < |d.jumps| && Onward(d, q)
  {
    hide Ready, Resolve, Way, InsertionPoint;
    ReadyAscends(c);
    ResolvedWay(c, r, l, c.jumps[q].onTrue, c.jumps[q].index);
    ResolvedWay(c, r, l, c.jumps[q].onFalse, c.jumps[q].index);
  }

  lemma TurnOnward(c: Code, r: nat)
    requires Ready(c) && r < |c.jumps| && AllOnward(c, r)
    ensures var (d, e) := ResolveJump(c, r);
            e != Some(BackwardJump) && (e.None? ==> AllOnward(d, r + 1))
  {
    hide Ready, Resolve, ResolveJump, Way, Onward;
    var j := c.jumps[r];
    assert Onward(c, r);
    TurnFailsIff(c, r);
    OnwardWays(c, r);
    ResolvedOnward(c, r, j.onTrue, r);
    ResolveKeepsReady(c, r, j.onTrue);
    var (d, t) := Resolve(c, j, j.onTrue);
    OnwardWays(d, r);
    ResolvedOnward(d, r, j.onFalse, r);
    ResolveKeepsReady(d, r, j.onFalse);
    var (e, f) := Resolve(d, j, j.onFalse);
    if ResolveJump(c, r).1.None? {
      TurnStores(c, r, d, e);
      var g := ResolveJump(c, r).0;
      forall q | r + 1 <= q < |g.jumps| ensures Onward(g, q) {
        assert Onward(c, q);
        ResolvedOnward(c, r, j.onTrue, q);
        ResolvedOnward(d, r, j.onFalse, q);
        OnwardStored(e, g, q);
      }
    }
  }

  lemma OnwardWays(c: Code, q: nat)
    requires q < |c.jumps| && Onward(c, q)
    ensures Way(c, c.jumps[q].onTrue, c.jumps[q].index).Some? && Way(c, c.jumps[q].onFalse, c.jumps[q].index).Some?
  {}

  lemma OnwardStored(c: Code, d: Code, q: nat)
    requires d.jumps == c.jumps && d.labels == c.labels && q < |c.jumps| && Onward(c, q)
    ensures Onward(d, q)
  {}

  lemma TurnStores(c: Code, r: nat, d: Code, e: Code)
    requires Ready(c) && r < |c.jumps| && Positions(c, c.jumps[r].onTrue) != [] && ResolveJump(c, r).1.None?
    requires d == Resolve(c, c.jumps[r], c.jumps[r].onTrue).0 && StillReady(c, d, r)
    requires Positions(d, c.jumps[r].onFalse) != []
    requires e == Resolve(d, d.jumps[r], c.jumps[r].onFalse).0 && StillReady(d, e, r)
    ensures ResolveJump(c, r).0.jumps == e.jumps && ResolveJump(c, r).0.labels == e.labels
  {
    hide Ready, Resolve;
    ReadyJump(c, r);
    ReadyJump(d, r);
    ReadyJump(e, r);
  }

  /** Where every label is set behind the jumps to it, only the useless jump can stop `Assemble`. */
  lemma {:induction false} NeverBackward(c: Code, r: nat)
    requires Ready(c) && r <= |c.jumps| && AllOnward(c, r)
    ensures AssembleFrom(c, r).1 != Some(BackwardJump)
    decreases |c.jumps| - r
  {
    hide Ready, ResolveJump, AllOnward;
    if r < |c.jumps| {
      AssembleFromStep(c, r);
      TurnOnward(c, r);
      if ResolveJump(c, r).1.None? {
        NeverBackward(ResolveJump(c, r).0, r + 1);
      }
    }
  }

  // ---- groups that do not merge ----

  lemma {:induction false} GroupsFail(groups: seq<SyscallGroup>, arch: ArchInfo, last: Label, o: Order, k: nat)
    requires k < |groups| && MergeGroup(groups[k], arch).problems != []
    requires forall i :: 0 <= i < k ==> MergeGroup(groups[i], arch).problems == []
    ensures GroupsItems(groups, arch, last, o) == Err(MergeGroup(groups[k], arch).problems)
  {
    hide GroupItems, MergeGroup;
    if EmptyGroup(groups[0]) {
      EmptyMerges(groups[0], arch);
    }
    if k > 0 {
      assert groups[1..][k - 1] == groups[k];
      assert forall i :: 0 <= i < k - 1 ==> groups[1..][i] == groups[i + 1];
      var next := if EmptyGroup(groups[0]) then last
                  else GroupItems(MergeGroup(groups[0], arch).entries, groups[0].action, last, o).last;
      GroupsFail(groups[1..], arch, next, o, k - 1);
    }
  }

  /** The problems reported are those of the first group that does not merge. */
  lemma FilterReports(groups: seq<SyscallGroup>, default: uint32, arch: ArchInfo, o: Order, k: nat)
    requires k < |groups| && MergeGroup(groups[k], arch).problems != []
    requires forall i :: 0 <= i < k ==> MergeGroup(groups[i], arch).problems == []
    ensures Filter(groups, default, arch, o) == Err(BadGroup(MergeGroup(groups[k], arch).problems))
  {
    hide GroupsItems, MergeGroup;
    GroupsFail(groups, arch, 1, o, k);
  }
}
