/** Inserted long jumps, followed to the end of `Assemble`: when they land on their destination. */
module LongJumps {
  import opened Results
  import opened Words
  import opened Bpf
  import opened Labelled
  import opened Assembler
  import opened Resolution
  import opened Acceptance

  // ---- where instructions move ----

  /** Where the resolution of label `l` of jump `j` inserts something, if it does. */
  function InsertedAt(c: Code, j: JumpRef, l: Label): seq<Index>
    requires Ready(c) && j in c.jumps && Positions(c, l) != []
  {
    if |Resolve(c, j, l).0.instrs| == |c.instrs| then [] else [InsertionPoint(c.jumps, j).index + 1]
  }

  /** The points of insertion of one turn of `Assemble`, in order. */
  function TurnInsertions(c: Code, r: nat): seq<Index>
    requires Ready(c) && r < |c.jumps|
  {
    ReadyJump(c, r);
    var j := c.jumps[r];
    ResolveKeepsReady(c, r, j.onTrue);
    var (d, t) := Resolve(c, j, j.onTrue);
    ReadyJump(d, r);
    InsertedAt(c, j, j.onTrue) + if t.Ok? then InsertedAt(d, j, j.onFalse) else []
  }

  /** The points of insertion from turn `r` on. */
  function Insertions(c: Code, r: nat): seq<Index>
    requires Ready(c) && r <= |c.jumps|
    decreases |c.jumps| - r
  {
    if r == |c.jumps| then []
    else
      ResolveJumpKeepsReady(c, r);
      var (d, e) := ResolveJump(c, r);
      TurnInsertions(c, r) + if e.None? then Insertions(d, r + 1) else []
  }

  lemma InsertionsStep(c: Code, r: nat)
    requires Ready(c) && r < |c.jumps| && ResolveJump(c, r).1.None?
    ensures var d := ResolveJump(c, r).0;
            Ready(d) && |d.jumps| == |c.jumps| && Insertions(c, r) == TurnInsertions(c, r) + Insertions(d, r + 1)
  {
    hide Ready, ResolveJump, TurnInsertions;
    ResolveJumpKeepsReady(c, r);
  }

  /** Where the instruction at `p` is after these insertions. */
  function Place(p: Index, ats: seq<Index>): (q: Index)
    ensures q >= p
    decreases |ats|
  {
    if ats == [] then p else Place(ShiftIndex(p, ats[0]), ats[1..])
  }

  /** None of the insertions falls behind the instruction at `p` and at or before the one at `q`, both as they move. */
  predicate NoneBetween(p: Index, q: Index, ats: seq<Index>)
    decreases |ats|
  {
    ats == [] || (!(p < ats[0] <= q) && NoneBetween(ShiftIndex(p, ats[0]), ShiftIndex(q, ats[0]), ats[1..]))
  }

  lemma {:induction false} PlaceConcat(p: Index, a: seq<Index>, b: seq<Index>)
    ensures Place(p, a + b) == Place(Place(p, a), b)
    decreases |a|
  {
    if a == [] {
      assert a + b == b;
    } else {
      assert (a + b)[1..] == a[1..] + b;
      PlaceConcat(ShiftIndex(p, a[0]), a[1..], b);
    }
  }

  /** Two instructions keep their distance if and only if nothing is inserted between them. */
  lemma {:induction false} DistanceKept(p: Index, q: Index, ats: seq<Index>)
    requires p <= q
    ensures Place(q, ats) - Place(p, ats) >= q - p
    ensures Place(q, ats) - Place(p, ats) == q - p <==> NoneBetween(p, q, ats)
    decreases |ats|
  {
    if ats != [] {
      DistanceKept(ShiftIndex(p, ats[0]), ShiftIndex(q, ats[0]), ats[1..]);
    }
  }

  lemma ResolveMoves(c: Code, r: nat, l: Label, p: Index)
    requires Ready(c) && r < |c.jumps| && Positions(c, l) != [] && p < |c.instrs|
    ensures var d, q := Resolve(c, c.jumps[r], l).0, Place(p, InsertedAt(c, c.jumps[r], l));
            q < |d.instrs| && d.instrs[q] == c.instrs[p]
  {
    hide Ready, Resolve, Reach, InsertFor, Place, InsertionPoint, Trampoline;
    var j := c.jumps[r];
    ResolveCases(c, j, l);
    NothingPlaced(p);
    if DropUpTo(c.labels[l], j.index) != [] {
      var d := Popped(c, j, l);
      var after, dest := InsertionPoint(c.jumps, j).index, d.labels[l][0];
      ReachCases(d, j, l);
      InsertMoves(d, after + 1, Trampoline(d, dest, dest - j.index - 1, after), l, p);
    }
  }

  lemma NothingPlaced(p: Index)
    ensures Place(p, []) == p
  {}

  lemma InsertMoves(c: Code, at: Index, inst: Instr, l: Label, p: Index)
    requires at <= |c.instrs| && l in c.labels && p < |c.instrs|
    ensures var d := InsertFor(c, at, inst, l);
            && |d.instrs| == |c.instrs| + 1
            && Place(p, [at]) < |d.instrs| && d.instrs[Place(p, [at])] == c.instrs[p]
  {
    assert [at][1..] == [];
    NothingPlaced(ShiftIndex(p, at));
  }

  lemma InsertedCount(c: Code, r: nat, l: Label)
    requires Ready(c) && r < |c.jumps| && Positions(c, l) != []
    ensures |Resolve(c, c.jumps[r], l).0.instrs| == |c.instrs| + |InsertedAt(c, c.jumps[r], l)|
  {
    hide Ready, Resolve, Reach;
    var j := c.jumps[r];
    ResolveCases(c, j, l);
    if DropUpTo(c.labels[l], j.index) != [] {
      ReachCases(Popped(c, j, l), j, l);
    }
  }

  lemma TurnCount(c: Code, r: nat)
    requires Ready(c) && r < |c.jumps|
    ensures |ResolveJump(c, r).0.instrs| == |c.instrs| + |TurnInsertions(c, r)|
  {
    hide Ready, Resolve, InsertedAt;
    var j := c.jumps[r];
    ReadyJump(c, r);
    ResolveKeepsReady(c, r, j.onTrue);
    InsertedCount(c, r, j.onTrue);
    var (d, t) := Resolve(c, j, j.onTrue);
    if t.Ok? {
      ReadyJump(d, r);
      ResolveKeepsReady(d, r, j.onFalse);
      InsertedCount(d, r, j.onFalse);
      ReadyJump(Resolve(d, j, j.onFalse).0, r);
    }
  }

  /** The finished code is longer by the number of insertions. */
  lemma {:induction false} AssembleCount(c: Code, r: nat)
    requires Ready(c) && r <= |c.jumps|
    ensures |AssembleFrom(c, r).0.instrs| == |c.instrs| + |Insertions(c, r)|
    decreases |c.jumps| - r
  {
    hide Ready, ResolveJump, TurnInsertions;
    if r < |c.jumps| {
      AssembleFromStep(c, r);
      TurnCount(c, r);
      var (d, e) := ResolveJump(c, r);
      if e.None? {
        AssembleCount(d, r + 1);
      }
    }
  }

  lemma JumpMoves(c: Code, r: nat, p: Index)
    requires Ready(c) && r < |c.jumps| && p < |c.instrs|
    ensures var d, q := ResolveJump(c, r).0, Place(p, TurnInsertions(c, r));
            q < |d.instrs| && Erase(d.instrs[q]) == Erase(c.instrs[p])
  {
    hide Ready, Resolve, InsertedAt, Place;
    var j := c.jumps[r];
    ReadyJump(c, r);
    ResolveKeepsReady(c, r, j.onTrue);
    ResolveMoves(c, r, j.onTrue, p);
    var (d, t) := Resolve(c, j, j.onTrue);
    var first := InsertedAt(c, j, j.onTrue);
    if t.Err? {
      assert TurnInsertions(c, r) == first;
    } else {
      ReadyJump(d, r);
      ResolveKeepsReady(d, r, j.onFalse);
      ResolveMoves(d, r, j.onFalse, Place(p, first));
      PlaceConcat(p, first, InsertedAt(d, j, j.onFalse));
      ReadyJump(Resolve(d, j, j.onFalse).0, r);
    }
  }

  /** Every instruction is found again at its place when `Assemble` finishes, but for the skips of conditional jumps. */
  lemma {:induction false} AssembleMoves(c: Code, r: nat, p: Index)
    requires Ready(c) && r <= |c.jumps| && p < |c.instrs|
    ensures var d, q := AssembleFrom(c, r).0, Place(p, Insertions(c, r));
            q < |d.instrs| && Erase(d.instrs[q]) == Erase(c.instrs[p])
    decreases |c.jumps| - r
  {
    hide Ready, ResolveJump, TurnInsertions;
    if r < |c.jumps| {
      AssembleFromStep(c, r);
      JumpMoves(c, r, p);
      var (d, e) := ResolveJump(c, r);
      var ats := TurnInsertions(c, r);
      if e.None? {
        AssembleMoves(d, r + 1, Place(p, ats));
        PlaceConcat(p, ats, Insertions(d, r + 1));
      } else {
        assert ats + [] == ats;
      }
    }
  }

  // ---- the tables when a label's turn comes ----

  /** The tables after the first `r` turns. */
  function Turn(c: Code, r: nat): (d: Code)
    requires Ready(c) && r <= |c.jumps|
    ensures Ready(d) && |d.jumps| == |c.jumps|
  {
    hide Ready, ResolveJump;
    if r == 0 then c
    else
      var d := Turn(c, r - 1);
      ResolveJumpKeepsReady(d, r - 1);
      ResolveJump(d, r - 1).0
  }

  lemma {:induction false} TurnsSucceed(c: Code, r: nat)
    requires Ready(c) && r <= |c.jumps| && AssembleFrom(c, 0).1.None?
    ensures AssembleFrom(c, 0) == AssembleFrom(Turn(c, r), r)
    ensures r < |c.jumps| ==> ResolveJump(Turn(c, r), r) == (Turn(c, r + 1), None)
  {
    hide Ready, ResolveJump;
    if r > 0 {
      TurnsSucceed(c, r - 1);
      AssembleFromStep(Turn(c, r - 1), r - 1);
    }
    if r < |c.jumps| {
      AssembleFromStep(Turn(c, r), r);
    }
  }

  /** The tables when the true (`taken`) or false label of jump `r` is about to be resolved. */
  function Before(c: Code, r: nat, taken: bool): (d: Code)
    requires Ready(c) && r < |c.jumps|
    ensures Ready(d) && |d.jumps| == |c.jumps| && d.jumps[r] == Turn(c, r).jumps[r]
  {
    var d := Turn(c, r);
    ReadyJump(d, r);
    ResolveKeepsReady(d, r, d.jumps[r].onTrue);
    if taken then d else Resolve(d, d.jumps[r], d.jumps[r].onTrue).0
  }

  /** The points of insertion that follow the resolution of that label. */
  function Later(c: Code, r: nat, taken: bool): seq<Index>
    requires Ready(c) && r < |c.jumps|
  {
    var d := Before(c, r, false);
    ReadyJump(d, r);
    (if taken then InsertedAt(d, d.jumps[r], d.jumps[r].onFalse) else []) + Insertions(Turn(c, r + 1), r + 1)
  }

  /** A turn that inserts once does so for its true branch, if that is far. */
  lemma OneInsertion(c: Code, r: nat)
    requires Ready(c) && r < |c.jumps| && |ResolveJump(c, r).0.instrs| == |c.instrs| + 1
    requires var w := Way(c, c.jumps[r].onTrue, c.jumps[r].index); w.Some? && w.value - c.jumps[r].index - 1 > 255
    ensures TurnInsertions(c, r) == [InsertionPoint(c.jumps, c.jumps[r]).index + 1]
  {
    hide Ready, Resolve, ResolveJump, InsertionPoint;
    var j := c.jumps[r];
    ReadyJump(c, r);
    TurnCount(c, r);
    var at, inst := FarStep(c, j, j.onTrue);
    ResolveKeepsReady(c, r, j.onTrue);
    ReadyJump(Resolve(c, j, j.onTrue).0, r);
    PlacedSize(c, j, j.onTrue, at, inst);
  }

  lemma PlacedSize(c: Code, j: JumpRef, l: Label, at: Index, inst: Instr)
    requires l in c.labels && at <= |c.instrs|
    ensures |Placed(c, j, l, at, inst).instrs| == |c.instrs| + 1
  {}

  lemma FirstLater(c: Code)
    requires Ready(c) && 0 < |c.jumps| && |TurnInsertions(c, 0)| == 1
    requires var w := Way(c, c.jumps[0].onTrue, c.jumps[0].index); w.Some? && w.value - c.jumps[0].index - 1 > 255
    ensures Turn(c, 1) == ResolveJump(c, 0).0 && Later(c, 0, true) == Insertions(Turn(c, 1), 1)
  {
    hide Ready, Resolve, ResolveJump, InsertionPoint, Insertions;
    var j := c.jumps[0];
    ReadyJump(c, 0);
    var at, inst := FarStep(c, j, j.onTrue);
    ResolveKeepsReady(c, 0, j.onTrue);
    ReadyJump(Resolve(c, j, j.onTrue).0, 0);
    PlacedSize(c, j, j.onTrue, at, inst);
    assert Turn(c, 0) == c;
    assert [] + Insertions(Turn(c, 1), 1) == Insertions(Turn(c, 1), 1);
  }

  /** From the resolution of one label to the end of `Assemble`, every instruction is found again at its place. */
  lemma RestMoves(c: Code, r: nat, taken: bool, p: Index)
    requires Ready(c) && r < |c.jumps| && AssembleFrom(c, 0).1.None?
    ensures var b := Before(c, r, taken);
            var l := LabelOf(b.jumps[r], taken);
            && Positions(b, l) != []
            && (p < |Resolve(b, b.jumps[r], l).0.instrs| ==>
                  var d, f, q := Resolve(b, b.jumps[r], l).0, AssembleFrom(c, 0).0, Place(p, Later(c, r, taken));
                  q < |f.instrs| && Erase(f.instrs[q]) == Erase(d.instrs[p]))
  {
    hide Ready, Resolve, AssembleFrom, Insertions, Place, InsertedAt, Turn;
    TurnsSucceed(c, r);
    TurnsSucceed(c, r + 1);
    var b := Turn(c, r);
    var j := b.jumps[r];
    ReadyJump(b, r);
    ResolveKeepsReady(b, r, j.onTrue);
    var (d, t) := Resolve(b, j, j.onTrue);
    ReadyJump(d, r);
    ResolveKeepsReady(d, r, j.onFalse);
    var (e, f) := Resolve(d, j, j.onFalse);
    ReadyJump(e, r);
    var rest := Insertions(Turn(c, r + 1), r + 1);
    if taken && p < |d.instrs| {
      ResolveMoves(d, r, j.onFalse, p);
      var mid := InsertedAt(d, j, j.onFalse);
      PlaceConcat(p, mid, rest);
      AssembleMoves(Turn(c, r + 1), r + 1, Place(p, mid));
    } else if !taken && p < |e.instrs| {
      assert [] + rest == rest;
      AssembleMoves(Turn(c, r + 1), r + 1, p);
    }
  }

  // ---- long jumps ----

  /** The label's way is out of reach and does not lead to a return. */
  predicate NeedsLongJump(b: Code, r: nat, taken: bool)
    requires r < |b.jumps|
  {
    var w := Way(b, LabelOf(b.jumps[r], taken), b.jumps[r].index);
    w.Some? && w.value - b.jumps[r].index - 1 > 255 && w.value < |b.instrs| && !b.instrs[w.value].RetConstant?
  }

  function Destination(b: Code, r: nat, taken: bool): Index
    requires r < |b.jumps| && NeedsLongJump(b, r, taken)
  {
    Way(b, LabelOf(b.jumps[r], taken), b.jumps[r].index).value
  }

  /** A long jump stands at `p` and its destination `dest` at `q`. */
  predicate JumpFrom(f: seq<Instr>, p: Index, q: Index, dest: Instr) {
    p < |f| && f[p].Jump? && q < |f| && Erase(f[q]) == Erase(dest)
  }

  predicate LandsOn(f: seq<Instr>, p: Index, q: Index)
    requires p < |f| && f[p].Jump?
  {
    p + 1 + f[p].skip == q
  }

  lemma Displacement(i: Index, at: Index, w: Index, p: Index, q: Index)
    requires i < at < w && p >= at && q - p >= w + 1 - at && q < TWO_TO_32
    ensures p + 1 + (w - i - at) % TWO_TO_32 == q <==> i == 0 && q - p == w + 1 - at
  {}

  /** An inserted long jump lands on its destination in the finished code if and only if it was inserted for the first
      instruction of the program and nothing has been inserted later between it and its destination. */
  lemma LongJumpExactIff(c: Code, r: nat, taken: bool, b: Code, later: seq<Index>, f: seq<Instr>)
    requires Ready(c) && r < |c.jumps| && AssembleFrom(c, 0).1.None?
    requires b == Before(c, r, taken) && later == Later(c, r, taken) && f == AssembleFrom(c, 0).0.instrs
    requires r < |b.jumps| && NeedsLongJump(b, r, taken) && |f| < TWO_TO_32
    ensures var at, w := InsertionPoint(b.jumps, b.jumps[r]).index + 1, Destination(b, r, taken);
            var p, q := Place(at, later), Place(w + 1, later);
            && JumpFrom(f, p, q, b.instrs[w])
            && (LandsOn(f, p, q) <==> b.jumps[r].index == 0 && NoneBetween(at, w + 1, later))
  {
    hide Ready, Resolve, AssembleFrom, Later, Before, Place, NoneBetween, Way, InsertionPoint, NeedsLongJump, Destination,
      JumpFrom, LandsOn;
    var l := LabelOf(b.jumps[r], taken);
    RestMoves(c, r, taken, 0);
    forall p | 0 <= p < |Resolve(b, b.jumps[r], l).0.instrs|
      ensures Place(p, later) < |f| && Erase(f[Place(p, later)]) == Erase(Resolve(b, b.jumps[r], l).0.instrs[p])
    {
      RestMoves(c, r, taken, p);
    }
    LongJumpFollowed(b, r, taken, f, later);
  }

  /** The same, for any code in which the tables after the insertion are found again at their places. */
  lemma LongJumpFollowed(b: Code, r: nat, taken: bool, f: seq<Instr>, later: seq<Index>)
    requires Ready(b) && r < |b.jumps| && NeedsLongJump(b, r, taken) && |f| < TWO_TO_32
    requires Positions(b, LabelOf(b.jumps[r], taken)) != []
    requires var d := Resolve(b, b.jumps[r], LabelOf(b.jumps[r], taken)).0;
             forall p :: 0 <= p < |d.instrs| ==> Place(p, later) < |f| && Erase(f[Place(p, later)]) == Erase(d.instrs[p])
    ensures var at, w := InsertionPoint(b.jumps, b.jumps[r]).index + 1, Destination(b, r, taken);
            var p, q := Place(at, later), Place(w + 1, later);
            && JumpFrom(f, p, q, b.instrs[w])
            && (LandsOn(f, p, q) <==> b.jumps[r].index == 0 && NoneBetween(at, w + 1, later))
  {
    hide Ready, Resolve, Place, NoneBetween, Way, Placed, Popped, InsertionPoint;
    var j, w := b.jumps[r], Destination(b, r, taken);
    var l := LabelOf(j, taken);
    var at, inst := FarStep(b, j, l);
    PlacedThere(b, j, l, at, inst, w);
    DistanceKept(at, w + 1, later);
    Displacement(j.index, at, w, Place(at, later), Place(w + 1, later));
  }

  lemma PlacedThere(b: Code, j: JumpRef, l: Label, at: Index, inst: Instr, w: Index)
    requires l in b.labels && at <= w < |b.instrs|
    ensures var d := Placed(b, j, l, at, inst);
            at < |d.instrs| && w + 1 < |d.instrs| && d.instrs[at] == inst && d.instrs[w + 1] == b.instrs[w]
  {}
}
