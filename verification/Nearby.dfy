/** Programs in which at most one branch is far: what `Assemble` makes of them, and when that keeps their meaning. */
module Nearby {
  import opened Results
  import opened Words
  import opened Bpf
  import opened Labelled
  import opened Assembler
  import opened Resolution
  import opened Insertion
  import opened Preservation
  import opened Acceptance
  import opened Turns
  import opened LongJumps

  // ---- near jumps ----

  /** Branch `b` of jump `q`. */
  function BranchWay(c: Code, q: nat, b: bool): Option<Index>
    requires q < |c.jumps|
  {
    Way(c, LabelOf(c.jumps[q], b), c.jumps[q].index)
  }

  predicate Reaches(c: Code, q: nat, b: bool, n: nat)
    requires q < |c.jumps|
  {
    BranchWay(c, q, b).Some? && BranchWay(c, q, b).value - c.jumps[q].index - 1 <= n
  }

  /** Both ways of jump `q` are at most `n` instructions on, and they differ. */
  predicate Near(c: Code, q: nat, n: nat)
    requires q < |c.jumps|
  {
    Reaches(c, q, true, n) && Reaches(c, q, false, n) && BranchWay(c, q, true) != BranchWay(c, q, false)
  }

  ghost predicate AllWithin(c: Code, s: nat, r: nat, n: nat)
    requires r <= |c.jumps|
  {
    forall q :: s <= q < r ==> Near(c, q, n)
  }

  /** The jump at `i` has been resolved to go to `w` when its test comes out as `b`. */
  predicate GoesTo(f: seq<Instr>, i: Index, b: bool, w: Index) {
    i < |f| && f[i].JumpIf? && i + 1 + StoredSkip(f[i], b) == w
  }

  /** Both skips of jump `q` are its ways. */
  predicate Stored(c: Code, q: nat, f: seq<Instr>)
    requires q < |c.jumps|
  {
    forall b :: BranchWay(c, q, b).Some? && GoesTo(f, c.jumps[q].index, b, BranchWay(c, q, b).value)
  }

  predicate SameTests(a: seq<Instr>, b: seq<Instr>) {
    |a| == |b| && forall p :: 0 <= p < |a| ==> Erase(a[p]) == Erase(b[p])
  }

  ghost predicate KeepsWays(c: Code, d: Code, i: Index) { forall m, k :: k >= i ==> Way(d, m, k) == Way(c, m, k) }

  lemma NearTurn(c: Code, r: nat) returns (d: Code)
    requires Ready(c) && r < |c.jumps| && Near(c, r, 255)
    ensures ResolveJump(c, r) == (d, None) && Ready(d) && d.jumps == c.jumps
    ensures SameTests(c.instrs, d.instrs) && Stored(c, r, d.instrs) && KeepsWays(c, d, c.jumps[r].index)
  {
    hide Ready, Way, ResolveJump;
    d := NearNear(c, r);
  }

  lemma NearLater(c: Code, d: Code, i: Index, q: nat, n: nat)
    requires d.jumps == c.jumps && KeepsWays(c, d, i) && q < |c.jumps| && c.jumps[q].index >= i && Near(c, q, n)
    ensures Near(d, q, n) && forall b :: BranchWay(d, q, b) == BranchWay(c, q, b)
  {
    hide Way;
  }

  lemma NearIsNear(c: Code, r: nat)
    requires r <= |c.jumps| && AllWithin(c, r, |c.jumps|, 255)
    ensures AllNear(c, r)
  {
    hide Way;
    forall q | r <= q < |c.jumps| ensures NearWays(c, q) {
      assert Near(c, q, 255);
    }
  }

  /** When all remaining jumps are near, the rest of `Assemble` succeeds, writes their ways into them and changes nothing
      else. */
  lemma {:induction false} NearAssembled(c: Code, r: nat)
    requires Ready(c) && r <= |c.jumps| && AllWithin(c, r, |c.jumps|, 255)
    ensures var (d, e) := AssembleFrom(c, r);
            && e.None? && SameTests(c.instrs, d.instrs)
            && SameBut(c, d, if r < |c.jumps| then c.jumps[r].index else |c.instrs|)
            && forall q :: r <= q < |c.jumps| ==> Stored(c, q, d.instrs)
    decreases |c.jumps| - r
  {
    hide Ready, ResolveJump, Near, Stored, KeepsWays;
    NearIsNear(c, r);
    AssembleInsertsNothing(c, r);
    if r < |c.jumps| {
      var d := NearTurn(c, r);
      ReadyAscends(c);
      AssembleFromStep(c, r);
      forall q | r < q < |c.jumps| ensures Near(d, q, 255) {
        NearLater(c, d, c.jumps[r].index, q, 255);
      }
      NearAssembled(d, r + 1);
      NearIsNear(d, r + 1);
      AssembleInsertsNothing(d, r + 1);
      var f := AssembleFrom(d, r + 1).0.instrs;
      ReadyJump(c, r);
      StoredStays(c, r, d.instrs, f);
      forall q | r < q < |c.jumps| ensures Stored(c, q, f) {
        NearLater(c, d, c.jumps[r].index, q, 255);
        StoredSame(c, d, q, f);
      }
    }
  }

  lemma StoredStays(c: Code, q: nat, f: seq<Instr>, g: seq<Instr>)
    requires q < |c.jumps| && Stored(c, q, f) && |f| == |g|
    requires c.jumps[q].index < |f| ==> f[c.jumps[q].index] == g[c.jumps[q].index]
    ensures Stored(c, q, g)
  {}

  lemma StoredSame(c: Code, d: Code, q: nat, f: seq<Instr>)
    requires d.jumps == c.jumps && q < |c.jumps| && Stored(d, q, f) && forall b :: BranchWay(d, q, b) == BranchWay(c, q, b)
    ensures Stored(c, q, f)
  {}

  // ---- one far branch ----

  /** The true branch of jump `r` is far, its false branch near. */
  predicate FarTrue(c: Code, r: nat) {
    && r < |c.jumps| && BranchWay(c, r, true).Some? && !Reaches(c, r, true, 255) && Reaches(c, r, false, 254)
  }

  /** All branches are near but the true one of jump `r`. Those behind it leave room for one more instruction. */
  ghost predicate OnlyFar(c: Code, r: nat) {
    FarTrue(c, r) && AllWithin(c, 0, r, 255) && AllWithin(c, r + 1, |c.jumps|, 254)
  }

  /** `inst` has been placed at `at` on behalf of label `l` of the jump at `i`. */
  ghost predicate PlacedFor(c: Code, d: Code, l: Label, i: Index, at: Index, inst: Instr) {
    && at <= |c.instrs| && d.instrs == c.instrs[..at] + [inst] + c.instrs[at..] && d.jumps == ShiftJumps(c.jumps, at)
    && forall m, k :: k >= i ==> Way(d, m, ShiftIndex(k, at)) == WayPast(c, l, at, m, k)
  }

  lemma PlacedIs(c: Code, j: JumpRef, l: Label, at: Index, inst: Instr)
    requires l in c.labels && at <= |c.instrs|
    ensures PlacedFor(c, Placed(c, j, l, at, inst), l, j.index, at, inst)
  {
    hide Placed, Way, WayPast;
    PlacedAt(c, j, l, at, inst);
    forall m, k | k >= j.index
      ensures Way(Placed(c, j, l, at, inst), m, ShiftIndex(k, at)) == WayPast(c, l, at, m, k)
    {
      FarWay(c, j, l, at, inst, m, k);
    }
  }

  lemma PlacedWay(c: Code, d: Code, l: Label, i: Index, at: Index, inst: Instr, m: Label, k: Index)
    requires PlacedFor(c, d, l, i, at, inst) && i <= k
    ensures Way(d, m, ShiftIndex(k, at)) == WayPast(c, l, at, m, k)
  {
    hide Way, WayPast;
  }

  lemma PopIs(c: Code, j: JumpRef, l: Label)
    requires l in c.labels
    ensures Popped(c, j, l).instrs == c.instrs && Popped(c, j, l).jumps == c.jumps && KeepsWays(c, Popped(c, j, l), j.index)
  {
    hide Popped, Way;
    PoppedAt(c, j, l);
    forall m, k | k >= j.index ensures Way(Popped(c, j, l), m, k) == Way(c, m, k) {
      NearWay(c, j, l, m, k);
    }
  }

  lemma PastWay(c: Code, l: Label, at: Index, m: Label, i: Index, n: nat)
    requires Way(c, m, i).Some? && Way(c, m, i).value - i - 1 <= n && m != l && i < at
    ensures WayPast(c, l, at, m, i) == Some(ShiftIndex(Way(c, m, i).value, at))
    ensures i < ShiftIndex(Way(c, m, i).value, at) <= i + n + 2
  {
    FirstIsPast(Positions(c, m), i);
  }

  /** Where something is inserted for a far branch of jump `r`. */
  function PlaceFor(c: Code, r: nat): Index
    requires r < |c.jumps|
  {
    InsertionPoint(c.jumps, c.jumps[r]).index + 1
  }

  /** What is inserted for its true branch. */
  function InstrFor(c: Code, r: nat): Instr
    requires r < |c.jumps| && BranchWay(c, r, true).Some? && BranchWay(c, r, true).value < |c.instrs|
  {
    var w := BranchWay(c, r, true).value;
    if c.instrs[w].RetConstant? then c.instrs[w] else Jump((w - c.jumps[r].index - PlaceFor(c, r)) % TWO_TO_32)
  }

  /** The turn of jump `r`: the insertion into `c` gives `d`, and storing the skips gives `e`. */
  ghost predicate FarTurned(c: Code, r: nat, d: Code, e: Code)
    requires r < |c.jumps| && BranchWay(c, r, true).Some? && BranchWay(c, r, true).value < |c.instrs|
    requires BranchWay(c, r, false).Some?
  {
    var i, at := c.jumps[r].index, PlaceFor(c, r);
    && i < at <= i + 255 && at <= |c.instrs| && PlacedFor(c, d, c.jumps[r].onTrue, i, at, InstrFor(c, r))
    && |e.instrs| == |d.instrs| && e.jumps == d.jumps && KeepsWays(d, e, i)
    && SameTests(d.instrs, e.instrs) && (forall p :: 0 <= p < |d.instrs| && p != i ==> e.instrs[p] == d.instrs[p])
    && GoesTo(e.instrs, i, true, at) && GoesTo(e.instrs, i, false, ShiftIndex(BranchWay(c, r, false).value, at))
  }

  lemma FarTurn(c: Code, r: nat) returns (d: Code, e: Code)
    requires Ready(c) && FarTrue(c, r)
    ensures BranchWay(c, r, true).value < |c.instrs|
    ensures ResolveJump(c, r) == (e, None) && Ready(e) && FarTurned(c, r, d, e)
  {
    hide Ready, Resolve, ResolveJump, Way, Placed, Popped, PlacedFor, WayPast;
    var j, i := c.jumps[r], c.jumps[r].index;
    var at, inst := FarStep(c, j, j.onTrue);
    ReadyJump(c, r);
    ResolveKeepsReady(c, r, j.onTrue);
    d := Placed(c, j, j.onTrue, at, inst);
    PlacedIs(c, j, j.onTrue, at, inst);
    PastWay(c, j.onTrue, at, j.onFalse, i, 254);
    var f := ShiftIndex(Way(c, j.onFalse, i).value, at);
    PlacedWay(c, d, j.onTrue, i, at, inst, j.onFalse, i);
    ReadyJump(d, r);
    NearStep(d, j, j.onFalse);
    ResolveKeepsReady(d, r, j.onFalse);
    var g := Popped(d, j, j.onFalse);
    PopIs(d, j, j.onFalse);
    ResolveJumpOf(c, r, d, at - 1 - i, g, f - i - 1);
    ResolveJumpKeepsReady(c, r);
    e := Store(g, i, at - 1 - i, f - i - 1);
    StoredWays(d, g, i, at - 1 - i, f - i - 1);
  }

  lemma StoredWays(d: Code, g: Code, i: Index, t: uint8, f: uint8)
    requires IsJump(g, i) && g.instrs == d.instrs && g.jumps == d.jumps && KeepsWays(d, g, i)
    ensures var e := Store(g, i, t, f);
            && |e.instrs| == |d.instrs| && e.jumps == d.jumps && KeepsWays(d, e, i) && SameTests(d.instrs, e.instrs)
            && (forall p :: 0 <= p < |d.instrs| && p != i ==> e.instrs[p] == d.instrs[p])
            && GoesTo(e.instrs, i, true, i + 1 + t) && GoesTo(e.instrs, i, false, i + 1 + f)
  {
    hide Way;
    forall m, k | k >= i ensures Way(Store(g, i, t, f), m, k) == Way(d, m, k) {
      SamePositions(g, i, t, f, m, k);
    }
  }

  /** The insertion moves the way of a later branch along, or makes the inserted instruction its way. Either way it stays
      within reach. */
  lemma WayAfter(c: Code, r: nat, d: Code, e: Code, q: nat, b: bool)
    requires Ready(c) && FarTrue(c, r) && BranchWay(c, r, true).value < |c.instrs| && FarTurned(c, r, d, e)
    requires r < q < |c.jumps| && Near(c, q, 254)
    ensures var l, at, i := LabelOf(c.jumps[q], b), PlaceFor(c, r), c.jumps[q].index;
            && q < |e.jumps| && e.jumps[q] == ShiftRef(c.jumps[q], at) && Reaches(e, q, b, 255)
            && BranchWay(e, q, b).value == if l == c.jumps[r].onTrue && i < at then at
                                           else ShiftIndex(BranchWay(c, q, b).value, at)
  {
    hide Ready, Way;
    ReadyAscends(c);
    var l, at, i := LabelOf(c.jumps[q], b), PlaceFor(c, r), c.jumps[q].index;
    PlacedWay(c, d, c.jumps[r].onTrue, c.jumps[r].index, at, InstrFor(c, r), l, i);
  }

  /** So all later jumps are near. */
  lemma LaterNear(c: Code, r: nat, d: Code, e: Code, q: nat)
    requires Ready(c) && FarTrue(c, r) && BranchWay(c, r, true).value < |c.instrs| && FarTurned(c, r, d, e)
    requires r < q < |c.jumps| && Near(c, q, 254)
    ensures |e.jumps| == |c.jumps| && Near(e, q, 255)
  {
    hide Ready, Way;
    WayAfter(c, r, d, e, q, true);
    WayAfter(c, r, d, e, q, false);
  }

  /** Near turns up to turn `r`: nothing moves. */
  lemma {:induction false} NearTurns(c: Code, s: nat, r: nat) returns (d: Code)
    requires Ready(c) && s <= r < |c.jumps| && AllWithin(c, s, r, 255)
    ensures Ready(d) && d.jumps == c.jumps && SameTests(c.instrs, d.instrs) && KeepsWays(c, d, c.jumps[r].index)
    ensures AssembleFrom(c, s) == AssembleFrom(d, r)
    decreases r - s
  {
    hide Ready, ResolveJump, Near, Way, Stored;
    if s == r {
      d := c;
    } else {
      var e := NearTurn(c, s);
      ReadyAscends(c);
      AssembleFromStep(c, s);
      forall q | s < q < r ensures Near(e, q, 255) {
        NearLater(c, e, c.jumps[s].index, q, 255);
      }
      d := NearTurns(e, s + 1, r);
    }
  }

  lemma NearStill(c: Code, d: Code, r: nat)
    requires Ready(c) && FarTrue(c, r) && AllWithin(c, r + 1, |c.jumps|, 254)
    requires d.jumps == c.jumps && KeepsWays(c, d, c.jumps[r].index)
    ensures FarTrue(d, r) && AllWithin(d, r + 1, |d.jumps|, 254) && BranchWay(d, r, true) == BranchWay(c, r, true)
  {
    hide Ready, Way, Near;
    ReadyAscends(c);
    forall q | r < q < |c.jumps| ensures Near(d, q, 254) {
      NearLater(c, d, c.jumps[r].index, q, 254);
    }
  }

  /** From the turn of the one far branch on. */
  lemma FarAssembled(c: Code, r: nat) returns (d: Code, e: Code)
    requires Ready(c) && FarTrue(c, r) && AllWithin(c, r + 1, |c.jumps|, 254)
    ensures BranchWay(c, r, true).value < |c.instrs| && Ready(e) && FarTurned(c, r, d, e)
    ensures AssembleFrom(c, r) == AssembleFrom(e, r + 1) && |e.jumps| == |c.jumps| && AllWithin(e, r + 1, |e.jumps|, 255)
  {
    hide Ready, ResolveJump, Way, Near, FarTurned;
    d, e := FarTurn(c, r);
    AssembleFromStep(c, r);
    forall q | r < q < |c.jumps| ensures Near(e, q, 255) {
      LaterNear(c, r, d, e, q);
    }
  }

  lemma FarTurnedAt(c: Code, r: nat, d: Code, e: Code, p: Index)
    requires FarTrue(c, r) && BranchWay(c, r, true).value < |c.instrs| && FarTurned(c, r, d, e) && p < |c.instrs|
    ensures var at := PlaceFor(c, r);
            && c.jumps[r].index < at <= c.jumps[r].index + 255 && at <= |c.instrs|
            && |e.instrs| == |c.instrs| + 1 && e.instrs[at] == InstrFor(c, r)
            && Erase(e.instrs[ShiftIndex(p, at)]) == Erase(c.instrs[p])
  {
    hide Way, PlaceFor, InstrFor, BranchWay;
    var at := PlaceFor(c, r);
    assert d.instrs[ShiftIndex(p, at)] == c.instrs[p];
  }

  lemma SameInsertion(c: Code, b: Code, r: nat)
    requires SameTests(c.instrs, b.instrs) && b.jumps == c.jumps && r < |c.jumps|
    requires BranchWay(b, r, true) == BranchWay(c, r, true) && BranchWay(c, r, true).Some?
    requires BranchWay(c, r, true).value < |b.instrs|
    ensures BranchWay(c, r, true).value < |c.instrs| == |b.instrs|
    ensures PlaceFor(b, r) == PlaceFor(c, r) && InstrFor(b, r) == InstrFor(c, r) && !InstrFor(c, r).JumpIf?
  {
    hide BranchWay, InsertionPoint;
    assert Erase(c.instrs[BranchWay(c, r, true).value]) == Erase(b.instrs[BranchWay(c, r, true).value]);
  }

  lemma TestAt(a: seq<Instr>, b: seq<Instr>, p: Index)
    requires SameTests(a, b)
    ensures |a| == |b|
    ensures p < |a| ==> Erase(a[p]) == Erase(b[p]) && (!a[p].JumpIf? ==> a[p] == b[p])
  {}

  /** When only the true branch of jump `r` is far, all of `Assemble` succeeds and makes the one insertion. */
  lemma LoneAssembled(c: Code, r: nat)
    requires Ready(c) && OnlyFar(c, r)
    ensures var (d, e) := AssembleFrom(c, 0);
            var at, w := PlaceFor(c, r), BranchWay(c, r, true).value;
            && e.None? && |d.instrs| == |c.instrs| + 1 && w < |c.instrs| && at <= |c.instrs|
            && c.jumps[r].index < at <= c.jumps[r].index + 255
            && d.instrs[at] == InstrFor(c, r) && Erase(d.instrs[w + 1]) == Erase(c.instrs[w])
  {
    hide Ready, AssembleFrom, Way, AllWithin, FarTurned, SameTests, PlaceFor, InstrFor;
    var b := NearTurns(c, 0, r);
    NearStill(c, b, r);
    var d, g := FarAssembled(b, r);
    NearAssembled(g, r + 1);
    var f := AssembleFrom(c, 0).0.instrs;
    SameInsertion(c, b, r);
    var at, w := PlaceFor(c, r), BranchWay(c, r, true).value;
    FarTurnedAt(b, r, d, g, w);
    TestAt(c.instrs, b.instrs, w);
    TestAt(g.instrs, f, at);
    TestAt(g.instrs, f, w + 1);
  }

  /** In that case a long jump, which is made for a destination that is not a return, lands on it in the finished code if and
      only if the jump is the first instruction of the program. */
  lemma LoneLongJumpIff(c: Code, r: nat, f: seq<Instr>)
    requires Ready(c) && OnlyFar(c, r) && |c.instrs| < TWO_TO_32 - 1 && f == AssembleFrom(c, 0).0.instrs
    ensures AssembleFrom(c, 0).1.None? && |f| == |c.instrs| + 1 && BranchWay(c, r, true).value < |c.instrs|
    ensures var at, w := PlaceFor(c, r), BranchWay(c, r, true).value;
            !c.instrs[w].RetConstant? ==>
              && JumpFrom(f, at, w + 1, c.instrs[w])
              && (LandsOn(f, at, w + 1) <==> c.jumps[r].index == 0)
  {
    hide Ready, AssembleFrom, Way, AllWithin, PlaceFor;
    LoneAssembled(c, r);
    var at, w := PlaceFor(c, r), BranchWay(c, r, true).value;
    Displacement(c.jumps[r].index, at, w, at, w + 1);
  }

  // ---- meaning ----

  /** Position `e` of the finished code does what instruction `w` of `c` does: it is that instruction, a copy of it, or a long
      jump to it. */
  predicate Leads(c: Code, f: seq<Instr>, at: Index, e: Index, w: Index) {
    && w < |c.instrs| && e < |f|
    && (|| e == ShiftIndex(w, at)
        || (f[e] == c.instrs[w] && f[e].RetConstant?)
        || (f[e].Jump? && e + 1 + f[e].skip == ShiftIndex(w, at)))
  }

  /** Instruction `x` is found at its place, and nothing stands between it and the next unless it is a conditional jump. */
  predicate Carried(c: Code, f: seq<Instr>, at: Index, x: Index)
    requires x < |c.instrs|
  {
    var p := ShiftIndex(x, at);
    p < |f| && Erase(f[p]) == Erase(c.instrs[x]) && (!c.instrs[x].JumpIf? ==> x + 1 != at)
  }

  predicate BranchFollows(c: Code, f: seq<Instr>, at: Index, q: nat, b: bool)
    requires q < |c.jumps|
  {
    var p := ShiftIndex(c.jumps[q].index, at);
    && p < |f| && f[p].JumpIf? && BranchWay(c, q, b).Some?
    && Leads(c, f, at, p + 1 + StoredSkip(f[p], b), BranchWay(c, q, b).value)
  }

  /** `f` is `c` with something inserted at `at`, or nothing if `at` lies past its end, and with its jumps resolved. */
  ghost predicate Follows(c: Code, f: seq<Instr>, at: Index) {
    && |f| == |c.instrs| + (if at <= |c.instrs| then 1 else 0)
    && (forall x :: 0 <= x < |c.instrs| ==> Carried(c, f, at, x))
    && (forall q, b :: 0 <= q < |c.jumps| ==> BranchFollows(c, f, at, q, b))
  }

  lemma {:induction false} FollowsMeans(c: Code, f: seq<Instr>, at: Index, x: Index, acc: uint32, env: Env)
    requires Sound(c) && NoLongJump(c.instrs) && Follows(c, f, at) && x <= |c.instrs|
    ensures ShiftIndex(x, at) <= |f|
    ensures Run(f[ShiftIndex(x, at)..], acc, env) == RunLabelled(c, x, acc, env)
    decreases |c.instrs| - x, 1
  {
    hide Sound, Fetch, Passes, JumpAt, FirstAfter, BranchFollows, Run;
    if x == |c.instrs| {
      NothingRuns(f[ShiftIndex(x, at)..], acc, env);
    } else {
      assert Carried(c, f, at, x);
      var p := ShiftIndex(x, at);
      RunStep(f, p, acc, env);
      match c.instrs[x]
      case RetConstant(_) =>
      case LoadAbsolute(off, size) =>
        if Fetch(env, off, size).Some? {
          FollowsMeans(c, f, at, x + 1, Fetch(env, off, size).value, env);
        }
      case JumpIf(test, val, _, _) =>
        var q := JumpHere(c, x);
        BranchMeansWay(c, f, at, q, Passes(test, acc, val), acc, env);
    }
  }

  lemma NothingRuns(prog: seq<Instr>, acc: uint32, env: Env)
    requires prog == []
    ensures Run(prog, acc, env) == Fault
  {}

  lemma JumpHere(c: Code, x: Index) returns (q: nat)
    requires Sound(c) && x < |c.instrs| && c.instrs[x].JumpIf?
    ensures q < |c.jumps| && c.jumps[q].index == x && JumpAt(c.jumps, x) == Some(c.jumps[q])
  {
    q :| 0 <= q < |c.jumps| && c.jumps[q].index == x;
    JumpAtFinds(c.jumps, q);
  }

  lemma {:induction false} BranchMeansWay(c: Code, f: seq<Instr>, at: Index, q: nat, b: bool, acc: uint32, env: Env)
    requires Sound(c) && NoLongJump(c.instrs) && Follows(c, f, at) && q < |c.jumps|
    ensures BranchFollows(c, f, at, q, b) && BranchWay(c, q, b).Some? && BranchWay(c, q, b).value > c.jumps[q].index
    ensures var p := ShiftIndex(c.jumps[q].index, at);
            && p < |f| && f[p].JumpIf? && p + 1 + StoredSkip(f[p], b) <= |f|
            && Run(f[p + 1 + StoredSkip(f[p], b)..], acc, env) == RunLabelled(c, BranchWay(c, q, b).value, acc, env)
    decreases |c.instrs| - c.jumps[q].index, 0
  {
    hide Sound, Way, Run, RunLabelled;
    assert BranchFollows(c, f, at, q, b);
    var p, w := ShiftIndex(c.jumps[q].index, at), BranchWay(c, q, b).value;
    WayIsAhead(c, q, b);
    var e := p + 1 + StoredSkip(f[p], b);
    RunStep(f, e, acc, env);
    if f[e] == c.instrs[w] && f[e].RetConstant? {
      LabelledReturn(c, w, acc, env);
    } else {
      FollowsMeans(c, f, at, w, acc, env);
    }
  }

  lemma WayIsAhead(c: Code, q: nat, b: bool)
    requires q < |c.jumps| && BranchWay(c, q, b).Some?
    ensures BranchWay(c, q, b).value > c.jumps[q].index
  {
    FirstIsPast(Positions(c, LabelOf(c.jumps[q], b)), c.jumps[q].index);
  }

  lemma NearFollows(c: Code, f: seq<Instr>)
    requires Ready(c) && AllWithin(c, 0, |c.jumps|, 255) && f == AssembleFrom(c, 0).0.instrs
    ensures Follows(c, f, |c.instrs| + 1)
  {
    hide Ready, AssembleFrom, Near, Stored, BranchFollows;
    NearAssembled(c, 0);
    var at := |c.instrs| + 1;
    forall q, b | 0 <= q < |c.jumps| ensures BranchFollows(c, f, at, q, b) {
      StoredFollows(c, f, q, b);
    }
  }

  lemma StoredFollows(c: Code, f: seq<Instr>, q: nat, b: bool)
    requires Ready(c) && q < |c.jumps| && Stored(c, q, f) && |f| == |c.instrs|
    ensures BranchFollows(c, f, |c.instrs| + 1, q, b)
  {
    hide Ready, Way;
    assert BranchWay(c, q, b).Some?;
    WayInside(c, LabelOf(c.jumps[q], b), c.jumps[q].index);
  }

  /** When every branch is near, `Assemble` succeeds and keeps the meaning of the labels. */
  lemma NearKeepsMeaning(c: Code, acc: uint32, env: Env)
    requires Ready(c) && Sound(c) && NoLongJump(c.instrs) && AllWithin(c, 0, |c.jumps|, 255)
    ensures AssembleFrom(c, 0).1.None?
    ensures Run(AssembleFrom(c, 0).0.instrs, acc, env) == RunLabelled(c, 0, acc, env)
  {
    hide Ready, Sound, AssembleFrom, AllWithin, Follows, Run;
    var f := AssembleFrom(c, 0).0.instrs;
    NearAssembled(c, 0);
    NearFollows(c, f);
    FollowsMeans(c, f, |c.instrs| + 1, 0, acc, env);
    assert f[0..] == f;
  }

  /** The instruction inserted for the far branch leads to its destination, if the jump is the first instruction or the
      destination a return. */
  lemma InsertedLeads(c: Code, f: seq<Instr>)
    requires FarTrue(c, 0) && |f| == |c.instrs| + 1 && BranchWay(c, 0, true).value < |c.instrs| < TWO_TO_32
    requires c.jumps[0].index < PlaceFor(c, 0) <= c.jumps[0].index + 255 && f[PlaceFor(c, 0)] == InstrFor(c, 0)
    requires c.jumps[0].index == 0 || c.instrs[BranchWay(c, 0, true).value].RetConstant?
    ensures Leads(c, f, PlaceFor(c, 0), PlaceFor(c, 0), BranchWay(c, 0, true).value)
  {
    hide Way;
  }

  lemma FirstBranches(c: Code, d: Code, e: Code, f: seq<Instr>, b: bool)
    requires Ready(c) && FarTrue(c, 0) && BranchWay(c, 0, true).value < |c.instrs| < TWO_TO_32
    requires c.jumps[0].index == 0 || c.instrs[BranchWay(c, 0, true).value].RetConstant?
    requires FarTurned(c, 0, d, e) && SameTests(e.instrs, f) && f[c.jumps[0].index] == e.instrs[c.jumps[0].index]
    ensures BranchFollows(c, f, PlaceFor(c, 0), 0, b)
  {
    hide Ready, Way, PlaceFor, InstrFor, SameTests, PlacedFor;
    var at := PlaceFor(c, 0);
    FarTurnedAt(c, 0, d, e, BranchWay(c, 0, true).value);
    TestAt(e.instrs, f, at);
    InstrForIsPlain(c, 0);
    InsertedLeads(c, f);
    WayInside(c, c.jumps[0].onFalse, c.jumps[0].index);
  }

  lemma InstrForIsPlain(c: Code, r: nat)
    requires r < |c.jumps| && BranchWay(c, r, true).Some? && BranchWay(c, r, true).value < |c.instrs|
    ensures !InstrFor(c, r).JumpIf?
  {}

  lemma LaterBranch(c: Code, d: Code, e: Code, f: seq<Instr>, q: nat, b: bool)
    requires Ready(c) && FarTrue(c, 0) && BranchWay(c, 0, true).value < |c.instrs| < TWO_TO_32
    requires c.jumps[0].index == 0 || c.instrs[BranchWay(c, 0, true).value].RetConstant?
    requires 0 < q < |c.jumps| && Near(c, q, 254) && FarTurned(c, 0, d, e) && SameTests(e.instrs, f)
    requires q < |e.jumps| && Stored(e, q, f)
    ensures BranchFollows(c, f, PlaceFor(c, 0), q, b)
  {
    hide Ready, Way, PlaceFor, InstrFor, SameTests, FarTurned;
    var at := PlaceFor(c, 0);
    FarTurnedAt(c, 0, d, e, BranchWay(c, 0, true).value);
    TestAt(e.instrs, f, at);
    InstrForIsPlain(c, 0);
    InsertedLeads(c, f);
    WayAfter(c, 0, d, e, q, b);
    WayInside(c, LabelOf(c.jumps[q], b), c.jumps[q].index);
    ReadyAscends(c);
    if LabelOf(c.jumps[q], b) == c.jumps[0].onTrue && c.jumps[q].index < at {
      SameWay(c, c.jumps[0].onTrue, c.jumps[0].index, c.jumps[q].index);
    }
  }

  lemma CarriedAt(c: Code, d: Code, e: Code, f: seq<Instr>, x: Index)
    requires Ready(c) && FarTrue(c, 0) && BranchWay(c, 0, true).value < |c.instrs| && FarTurned(c, 0, d, e)
    requires SameTests(e.instrs, f) && x < |c.instrs|
    ensures Carried(c, f, PlaceFor(c, 0), x)
  {
    hide Ready, Way, FarTurned, InsertionPoint;
    FarTurnedAt(c, 0, d, e, x);
    InsertionPointRange(c, c.jumps[0]);
  }

  lemma LoneFollows(c: Code, f: seq<Instr>)
    requires Ready(c) && OnlyFar(c, 0) && BranchWay(c, 0, true).value < |c.instrs| < TWO_TO_32
    requires c.jumps[0].index == 0 || c.instrs[BranchWay(c, 0, true).value].RetConstant?
    requires f == AssembleFrom(c, 0).0.instrs
    ensures AssembleFrom(c, 0).1.None? && Follows(c, f, PlaceFor(c, 0)) && PlaceFor(c, 0) > 0
  {
    hide Ready, AssembleFrom, Way, Near, FarTurned, Stored, PlaceFor, Carried, BranchFollows, Reaches;
    var d, e := FarAssembled(c, 0);
    NearAssembled(e, 1);
    FarTurnedAt(c, 0, d, e, BranchWay(c, 0, true).value);
    FarTurnedFirst(c, d, e, f);
    var at := PlaceFor(c, 0);
    forall x | 0 <= x < |c.instrs| ensures Carried(c, f, at, x) {
      CarriedAt(c, d, e, f, x);
    }
    forall q, b | 0 <= q < |c.jumps| ensures BranchFollows(c, f, at, q, b) {
      if q == 0 {
        FirstBranches(c, d, e, f, b);
      } else {
        LaterBranch(c, d, e, f, q, b);
      }
    }
  }

  /** The turns after the first leave the first jump alone. */
  lemma FarTurnedFirst(c: Code, d: Code, e: Code, f: seq<Instr>)
    requires FarTrue(c, 0) && BranchWay(c, 0, true).value < |c.instrs| && FarTurned(c, 0, d, e) && Ready(e)
    requires |e.jumps| == |c.jumps| && f == AssembleFrom(e, 1).0.instrs
    requires SameBut(e, AssembleFrom(e, 1).0, if 1 < |e.jumps| then e.jumps[1].index else |e.instrs|)
    ensures c.jumps[0].index < |e.instrs| == |f| && f[c.jumps[0].index] == e.instrs[c.jumps[0].index]
  {
    hide Ready, Way, AssembleFrom, PlaceFor, InstrFor;
    ReadyAscends(e);
    assert e.jumps[0] == ShiftRef(c.jumps[0], PlaceFor(c, 0));
  }

  /** When the true branch of the first jump is the only far one, `Assemble` succeeds; and it keeps the meaning of the labels if
      that branch leads to a return or the jump is the first instruction of the program. */
  lemma LoneFarKeepsMeaning(c: Code, acc: uint32, env: Env)
    requires Ready(c) && Sound(c) && NoLongJump(c.instrs) && OnlyFar(c, 0) && |c.instrs| < TWO_TO_32 - 1
    ensures AssembleFrom(c, 0).1.None? && BranchWay(c, 0, true).value < |c.instrs|
    ensures c.jumps[0].index == 0 || c.instrs[BranchWay(c, 0, true).value].RetConstant? ==>
              Run(AssembleFrom(c, 0).0.instrs, acc, env) == RunLabelled(c, 0, acc, env)
  {
    hide Ready, Sound, AssembleFrom, AllWithin, Follows, Run, Way, PlaceFor;
    var f := AssembleFrom(c, 0).0.instrs;
    LoneLongJumpIff(c, 0, f);
    if c.jumps[0].index == 0 || c.instrs[BranchWay(c, 0, true).value].RetConstant? {
      LoneFollows(c, f);
      FollowsMeans(c, f, PlaceFor(c, 0), 0, acc, env);
      assert f[0..] == f;
    }
  }
}
