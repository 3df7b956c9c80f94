/** `Assemble` rejects no compiled policy, however long its conditional system calls are: every branch keeps one of its
    two ways on within reach, so neither error arises. */
module Acceptance {
  import opened Results
  import opened Words
  import opened Bpf
  import opened Labelled
  import opened Assembler
  import opened Resolution
  import opened Insertion
  import opened Policies
  import opened Merge
  import opened Codegen
  import opened CodegenMeaning
  import opened Tameness
  import opened Compiler
  import opened Correctness

  // ---- what one resolution does to what lies ahead ----

  /** Where a jump at `i` to label `l` goes. */
  function Way(c: Code, l: Label, i: Index): Option<Index> { FirstAfter(Positions(c, l), i) }

  /** The same, once a copy of the destination of `l` has been placed at `at`. */
  function WayPast(c: Code, l: Label, at: Index, m: Label, i: Index): Option<Index> {
    if m == l && i < at then Some(at)
    else match Way(c, m, i) case None => None case Some(t) => Some(ShiftIndex(t, at))
  }

  function Popped(c: Code, j: JumpRef, l: Label): Code
    requires l in c.labels
  {
    Relabel(c, l, DropUpTo(c.labels[l], j.index))
  }

  /** `inst` placed at `at` on behalf of label `l` of jump `j`. */
  function Placed(c: Code, j: JumpRef, l: Label, at: Index, inst: Instr): Code
    requires l in c.labels && at <= |c.instrs|
  {
    InsertFor(Popped(c, j, l), at, inst, l)
  }

  /** A destination within reach: only positions behind the jump are dropped. */
  lemma NearStep(c: Code, j: JumpRef, l: Label)
    requires Ready(c) && j in c.jumps && Way(c, l, j.index).Some? && Way(c, l, j.index).value - j.index - 1 <= 255
    ensures l in c.labels && Positions(c, l) != []
    ensures Resolve(c, j, l) == (Popped(c, j, l), Ok(Way(c, l, j.index).value - j.index - 1))
  {
    hide Ready, Resolve, Reach;
    ResolveCases(c, j, l);
    ReachCases(Popped(c, j, l), j, l);
  }

  lemma NearWay(c: Code, j: JumpRef, l: Label, m: Label, i: Index)
    requires l in c.labels && i >= j.index
    ensures Way(Popped(c, j, l), m, i) == Way(c, m, i)
  {
    PoppedNotNeeded(c.labels[l], j.index, i);
  }

  /** A destination out of reach: something is placed behind a jump at most 254 further on. */
  lemma FarStep(c: Code, j: JumpRef, l: Label) returns (at: Index, inst: Instr)
    requires Ready(c) && j in c.jumps && Way(c, l, j.index).Some? && Way(c, l, j.index).value - j.index - 1 > 255
    ensures l in c.labels && Positions(c, l) != []
    ensures at == InsertionPoint(c.jumps, j).index + 1 && j.index < at <= j.index + 255 && at <= |c.instrs|
    ensures Resolve(c, j, l) == (Placed(c, j, l, at, inst), Ok(at - 1 - j.index))
    ensures var dest := Way(c, l, j.index).value;
            && dest < |c.instrs|
            && inst == if c.instrs[dest].RetConstant? then c.instrs[dest] else Jump((dest - j.index - at) % TWO_TO_32)
  {
    hide Ready, Resolve, Reach;
    ResolveCases(c, j, l);
    var popped := Popped(c, j, l);
    ReachCases(popped, j, l);
    var after := InsertionPoint(c.jumps, j).index;
    var dest := popped.labels[l][0];
    at, inst := after + 1, Trampoline(popped, dest, dest - j.index - 1, after);
  }

  lemma FarWay(c: Code, j: JumpRef, l: Label, at: Index, inst: Instr, m: Label, i: Index)
    requires l in c.labels && i >= j.index && at <= |c.instrs|
    ensures Way(Placed(c, j, l, at, inst), m, ShiftIndex(i, at)) == WayPast(c, l, at, m, i)
  {
    hide InsertFor;
    var popped := Popped(c, j, l);
    PositionsInserted(popped, at, inst, l, m);
    FirstAfterShifted(Positions(popped, m), i, at);
    NearWay(c, j, l, m, i);
    var shifted := ShiftAll(Positions(popped, m), at);
    assert [] + shifted == shifted && ([at] + shifted)[1..] == shifted;
  }

  /** A position past the jump and out of its reach is the one that jumps in front of the copy go to. */
  lemma SameWay(c: Code, l: Label, i: Index, k: Index)
    requires i <= k && Way(c, l, i).Some? && Way(c, l, i).value > k
    ensures Way(c, l, k) == Way(c, l, i)
  {
    PoppedNotNeeded(Positions(c, l), i, k);
  }

  // ---- the invariant ----

  /** How many of the first `r` jumps may have placed something just behind jump `q`, when only `w` in front of it can. */
  function Room(r: nat, q: nat, w: nat): nat { if r + w <= q then 0 else r + w - q }

  /** The next jump is near, and the jump before the two preceding ones is some loads away. */
  predicate Followed(c: Code, r: nat, q: nat) {
    && q + 1 < |c.jumps|
    && c.jumps[q + 1].index - c.jumps[q].index <= 2 + Room(r, q, 252)
    && (q >= 3 ==> c.jumps[q].index - c.jumps[q - 3].index >= 5)
  }

  /** The two ways of jump `q` differ, and one of them is near enough to stay within reach. */
  predicate Open(c: Code, r: nat, q: nat) {
    q < |c.jumps|
    && var i := c.jumps[q].index;
       var t, f := Way(c, c.jumps[q].onTrue, i), Way(c, c.jumps[q].onFalse, i);
       && t.Some? && f.Some? && t != f
       && (|| f.value - i - 1 <= Room(r, q, 254)
           || (t.value - i - 1 <= Room(r, q, 254)
               && (f.value - i - 1 <= Room(r, q, 254) + 1 || Followed(c, r, q))))
  }

  lemma OpenLater(c: Code, r: nat, q: nat)
    ensures Open(c, r, q) ==> Open(c, r + 1, q)
  {}

  lemma JumpShifted(c: Code, at: Index, inst: Instr, j: JumpRef, l: Label, q: nat)
    requires l in c.labels && at <= |c.instrs| && q < |c.jumps|
    ensures var d := Placed(c, j, l, at, inst);
            |d.jumps| == |c.jumps| && d.jumps[q] == ShiftRef(c.jumps[q], at)
  {}

  lemma {:induction false} AscendingGap(jumps: seq<JumpRef>, p: nat, q: nat)
    requires Ascending(jumps) && p <= q < |jumps|
    ensures jumps[q].index - jumps[p].index >= q - p
    decreases q - p
  {
    if p < q {
      AscendingGap(jumps, p + 1, q);
      assert jumps[p].index < jumps[p + 1].index;
    }
  }

  /** How far ahead a way of a later jump is after something has been placed at `at` for jump `r`. */
  lemma GapPast(c: Code, r: nat, l: Label, at: Index, q: nat, m: Label)
    requires Ready(c) && r <= q < |c.jumps|
    requires Way(c, l, c.jumps[r].index).Some? && c.jumps[r].index < at < Way(c, l, c.jumps[r].index).value
    requires Way(c, m, c.jumps[q].index).Some? && at <= c.jumps[r].index + 255
    ensures var i := c.jumps[q].index;
            var w := WayPast(c, l, at, m, i);
            && w.Some?
            && w.value - ShiftIndex(i, at) <= Way(c, m, i).value - i + (if q - r <= 254 then 1 else 0)
  {
    hide Ready;
    ReadyAscends(c);
    AscendingGap(c.jumps, r, q);
    var i := c.jumps[q].index;
    if m == l && i < at {
      SameWay(c, l, c.jumps[r].index, i);
    }
  }

  lemma OpenPopped(c: Code, j: JumpRef, l: Label, r: nat, q: nat)
    requires l in c.labels && Open(c, r, q) && c.jumps[q].index >= j.index
    ensures Open(Popped(c, j, l), r, q)
  {
    NearWay(c, j, l, c.jumps[q].onTrue, c.jumps[q].index);
    NearWay(c, j, l, c.jumps[q].onFalse, c.jumps[q].index);
  }

  /** Something placed for jump `r` leaves every later jump open. */
  lemma OpenPast(c: Code, r: nat, l: Label, at: Index, inst: Instr, q: nat)
    requires Ready(c) && r < q < |c.jumps| && l in c.labels && at <= |c.instrs| && Open(c, r, q)
    requires Way(c, l, c.jumps[r].index).Some? && c.jumps[r].index < at < Way(c, l, c.jumps[r].index).value
    requires at <= c.jumps[r].index + 255
    ensures Open(Placed(c, c.jumps[r], l, at, inst), r + 1, q)
  {
    hide Ready, Placed, Popped, Way, Followed, Room;
    var j, i, t, f := c.jumps[r], c.jumps[q].index, c.jumps[q].onTrue, c.jumps[q].onFalse;
    var d := Placed(c, j, l, at, inst);
    ReadyAscends(c);
    AscendingGap(c.jumps, r, q);
    JumpShifted(c, at, inst, j, l, q);
    FarWay(c, j, l, at, inst, t, i);
    FarWay(c, j, l, at, inst, f, i);
    GapPast(c, r, l, at, q, t);
    GapPast(c, r, l, at, q, f);
    RoomGrows(r, q, 254);
    if Followed(c, r, q) {
      FollowedPast(c, r, l, at, inst, q);
    }
  }

  lemma RoomGrows(r: nat, q: nat, w: nat)
    requires r < q
    ensures Room(r + 1, q, w) >= Room(r, q, w) + (if q - r <= w then 1 else 0)
  {}

  lemma FollowedPast(c: Code, r: nat, l: Label, at: Index, inst: Instr, q: nat)
    requires Ready(c) && r < q < |c.jumps| && l in c.labels && at <= |c.instrs| && Followed(c, r, q)
    requires c.jumps[r].index < at <= c.jumps[r].index + 255
    ensures Followed(Placed(c, c.jumps[r], l, at, inst), r + 1, q)
  {
    hide Ready, Placed, Popped;
    var j := c.jumps[r];
    ReadyAscends(c);
    JumpShifted(c, at, inst, j, l, q);
    JumpShifted(c, at, inst, j, l, q + 1);
    AscendingGap(c.jumps, q, q + 1);
    AscendingGap(c.jumps, r, q);
    if q >= 3 {
      JumpShifted(c, at, inst, j, l, q - 3);
      AscendingGap(c.jumps, q - 3, q);
      if r <= q - 3 {
        AscendingGap(c.jumps, r, q - 3);
      }
    }
  }

  // ---- one jump ----

  /** One of the two labels of jump `r`: the skip is zero only when the label's way is the next instruction or nothing
      else jumps within reach, and later jumps stay open. */
  lemma ResolveOpen(c: Code, r: nat, l: Label, s: nat) returns (d: Code, skip: uint8)
    requires Ready(c) && r < |c.jumps| && Way(c, l, c.jumps[r].index).Some?
    ensures Positions(c, l) != [] && Resolve(c, c.jumps[r], l) == (d, Ok(skip))
    ensures StillReady(c, d, r)
    ensures var i, w := c.jumps[r].index, Way(c, l, c.jumps[r].index).value;
            if w - i - 1 <= 255 then
              skip == w - i - 1 && d.jumps == c.jumps && (forall m :: Way(d, m, i) == Way(c, m, i))
              && (forall q :: r < q < |c.jumps| && Open(c, s, q) ==> Open(d, s, q))
            else
              (forall m :: Way(d, m, i) == WayPast(c, l, i + skip + 1, m, i))
              && (r + 1 < |c.jumps| && c.jumps[r + 1].index < i + 255 ==> skip > 0)
              && (forall q :: r < q < |c.jumps| && Open(c, r, q) ==> Open(d, r + 1, q))
  {
    hide Ready, Resolve, Placed, Popped, Open, Way, WayPast;
    var j := c.jumps[r];
    WayHasPositions(c, l, j.index);
    ResolveKeepsReady(c, r, l);
    ReadyAscends(c);
    if Way(c, l, j.index).value - j.index - 1 <= 255 {
      NearStep(c, j, l);
      PoppedKeepsJumps(c, j, l);
      d, skip := Popped(c, j, l), Way(c, l, j.index).value - j.index - 1;
      forall m ensures Way(d, m, j.index) == Way(c, m, j.index) {
        NearWay(c, j, l, m, j.index);
      }
      forall q | r < q < |c.jumps| && Open(c, s, q) ensures Open(d, s, q) {
        AscendingGap(c.jumps, r, q);
        OpenPopped(c, j, l, s, q);
      }
    } else {
      var at, inst := FarStep(c, j, l);
      d, skip := Placed(c, j, l, at, inst), at - 1 - j.index;
      forall m ensures Way(d, m, j.index) == WayPast(c, l, at, m, j.index) {
        FarWay(c, j, l, at, inst, m, j.index);
      }
      if r + 1 < |c.jumps| && c.jumps[r + 1].index < j.index + 255 {
        InsertionPointAtLeast(c.jumps, j, r + 1);
        AscendingGap(c.jumps, r, r + 1);
      }
      forall q | r < q < |c.jumps| && Open(c, r, q) ensures Open(d, r + 1, q) {
        OpenPast(c, r, l, at, inst, q);
      }
    }
  }

  lemma PoppedKeepsJumps(c: Code, j: JumpRef, l: Label)
    requires l in c.labels
    ensures Popped(c, j, l).jumps == c.jumps
  {}

  lemma WayHasPositions(c: Code, l: Label, i: Index)
    requires Way(c, l, i).Some?
    ensures Positions(c, l) != [] && l in c.labels && Way(c, l, i).value > i
  {}

  /** Every jump from number `r` on is open. */
  ghost predicate AllOpen(c: Code, r: nat) {
    Ready(c) && forall q :: r <= q < |c.jumps| ==> Open(c, r, q)
  }

  /** What an open jump has when its turn comes. */
  lemma OpenNow(c: Code, r: nat)
    requires Open(c, r, r)
    ensures var i := c.jumps[r].index;
            var t, f := Way(c, c.jumps[r].onTrue, i), Way(c, c.jumps[r].onFalse, i);
            && t.Some? && f.Some? && t != f
            && (t.value - i - 1 > 255 ==> f.value - i - 1 <= 254)
            && (f.value - i - 1 > 255 ==>
                  t.value - i - 1 <= 254 && r + 1 < |c.jumps| && c.jumps[r + 1].index < i + 255)
  {}

  lemma ResolveJumpOf(c: Code, r: nat, d: Code, t: uint8, e: Code, f: uint8)
    requires Ready(c) && r < |c.jumps| && Positions(c, c.jumps[r].onTrue) != []
    requires Resolve(c, c.jumps[r], c.jumps[r].onTrue) == (d, Ok(t)) && StillReady(c, d, r)
    requires Positions(d, c.jumps[r].onFalse) != []
    requires Resolve(d, d.jumps[r], c.jumps[r].onFalse) == (e, Ok(f)) && StillReady(d, e, r)
    requires !(t == 0 && f == 0)
    ensures IsJump(e, c.jumps[r].index) && ResolveJump(c, r) == (Store(e, c.jumps[r].index, t, f), None)
  {
    hide Ready, Resolve;
    ReadyJump(c, r);
    ReadyJump(d, r);
    ReadyJump(e, r);
  }

  /** One turn of the loop in `Assemble` succeeds and leaves the later jumps open. */
  lemma JumpAccepted(c: Code, r: nat)
    requires AllOpen(c, r) && r < |c.jumps|
    ensures ResolveJump(c, r).1.None? && AllOpen(ResolveJump(c, r).0, r + 1)
    ensures |ResolveJump(c, r).0.jumps| == |c.jumps|
  {
    hide Ready, Resolve, ResolveJump, Open, Way, Followed;
    var j := c.jumps[r];
    var i := j.index;
    assert Open(c, r, r);
    OpenNow(c, r);
    var d, t := ResolveOpen(c, r, j.onTrue, r);
    var e, f := ResolveOpen(d, r, j.onFalse, r + 1);
    ResolveJumpOf(c, r, d, t, e, f);
    StoreKeepsReady(e, i, t, f);
    var g, next := Store(e, i, t, f), r + 1;
    forall q | next <= q < |c.jumps| ensures Open(g, next, q) {
      assert Open(c, r, q);
      OpenLater(d, r, q);
      OpenLater(c, r, q);
      OpenStored(e, i, t, f, next, q);
    }
  }

  lemma OpenStored(c: Code, i: Index, t: uint8, f: uint8, r: nat, q: nat)
    requires IsJump(c, i)
    ensures Open(c, r, q) ==> Open(Store(c, i, t, f), r, q)
  {}

  /** When every jump is open, `Assemble` succeeds. */
  lemma {:induction false} AssembleAccepts(c: Code, r: nat)
    requires AllOpen(c, r) && r <= |c.jumps|
    ensures AssembleFrom(c, r).1.None?
    decreases |c.jumps| - r
  {
    hide Ready, ResolveJump, Open;
    if r < |c.jumps| {
      JumpAccepted(c, r);
      AssembleFromStep(c, r);
      AssembleAccepts(ResolveJump(c, r).0, r + 1);
    }
  }

  // ---- what the compiler emits ----

  /** How much of a condition has just been emitted: 1 for the first load, 2 and 3 for the checks on it, 4 for the
      second load. */
  function Next(s: nat, it: Item): nat {
    match it
    case Load(_) => if s == 2 || s == 3 then 4 else 1
    case Branch(_, _, _, _) => if s == 1 || s == 2 then s + 1 else 0
    case Return(_) => 0
    case Mark(_) => s
  }

  /** The next instruction is a check, perhaps behind the load that feeds it. */
  predicate CheckNext(items: seq<Item>) {
    items != [] && (match items[0]
                    case Load(_) => |items| > 1 && items[1].Branch?
                    case Branch(_, _, _, _) => true
                    case Return(_) => false
                    case Mark(_) => CheckNext(items[1..]))
  }

  /** The two ways on from a branch differ, and one of them starts right behind it. */
  predicate TwoWays(s: nat, rest: seq<Item>, t: Label, f: Label) {
    && Dist(rest, t) != Dist(rest, f)
    && (Dist(rest, f) == 0 || (Dist(rest, t) == 0 && (Dist(rest, f) == 1 || (s == 4 && CheckNext(rest)))))
  }

  predicate Stepping(items: seq<Item>, s: nat) {
    items == [] || (
      && (items[0].Branch? ==> TwoWays(s, items[1..], items[0].onTrue, items[0].onFalse))
      && Stepping(items[1..], Next(s, items[0])))
  }

  predicate Emitting(items: seq<Item>) { items != [] && !items[0].Mark? }

  lemma SteppingCons(it: Item, k: seq<Item>, s: nat)
    requires Stepping(k, Next(s, it)) && (it.Branch? ==> TwoWays(s, k, it.onTrue, it.onFalse))
    ensures Stepping([it] + k, s)
  {
    assert ([it] + k)[1..] == k;
  }

  lemma MarkedHere(l: Label, k: seq<Item>, m: Label)
    ensures Dist([Mark(l)] + k, l) == 0
    ensures m != l ==> Dist([Mark(l)] + k, m) == Dist(k, m)
    ensures CheckNext(k) ==> CheckNext([Mark(l)] + k)
  {
    assert ([Mark(l)] + k)[1..] == k;
  }

  lemma NotHere(k: seq<Item>, l: Label)
    requires Emitting(k)
    ensures Dist(k, l) > 0
  {}

  /** A check that goes on with the next instruction when it fails. */
  lemma CheckSteps(test: Test, val: uint32, to: Label, next: Label, k: seq<Item>, s: nat)
    requires Dist(k, to) > 0 && to != next && Stepping(k, if s == 1 || s == 2 then s + 1 else 0)
    ensures Stepping(CheckTrue(test, val, to, next) + k, s) && Emitting(CheckTrue(test, val, to, next) + k)
  {
    hide Stepping;
    var br := Branch(test, val, to, next);
    MarkedHere(next, k, to);
    SteppingCons(Mark(next), k, Next(s, br));
    SteppingCons(br, [Mark(next)] + k, s);
    assert CheckTrue(test, val, to, next) + k == [br] + ([Mark(next)] + k);
  }

  /** What a condition needs of what follows it. */
  predicate Exits(k: seq<Item>, na: Label, nc: Label) { TwoWays(4, k, na, nc) && Stepping(k, 0) }

  lemma OneCheckSteps(ldHi: Item, test: Test, hi: uint32, to: Label, next: Label, ldLo: Item, br: Item, k: seq<Item>)
    requires ldHi.Load? && ldLo.Load? && br.Branch? && Exits(k, br.onTrue, br.onFalse) && to != next
    ensures var r := [ldHi] + CheckTrue(test, hi, to, next) + [ldLo] + [br] + k; Stepping(r, 0) && Emitting(r) && CheckNext(r)
  {
    hide CheckTrue, Stepping, TwoWays, CheckNext;
    var low, check := [ldLo] + ([br] + k), CheckTrue(test, hi, to, next);
    SteppingCons(br, k, 4);
    SteppingCons(ldLo, [br] + k, 2);
    NotHere(low, to);
    CheckSteps(test, hi, to, next, low, 1);
    SteppingCons(ldHi, check + low, 0);
    assert [ldHi] + check + [ldLo] + [br] + k == [ldHi] + (check + low);
    CheckIsNext(ldHi, test, hi, to, next, low);
  }

  lemma TwoChecksStep(ldHi: Item, test: Test, hi: uint32, next: Label, ldLo: Item, br: Item, k: seq<Item>)
    requires ldHi.Load? && ldLo.Load? && br.Branch? && Exits(k, br.onTrue, br.onFalse)
    requires br.onTrue < next && br.onFalse < next
    ensures var r := [ldHi] + CheckTrue(test, hi, br.onTrue, next) + CheckTrue(Test.NotEqual, hi, br.onFalse, next + 1)
                     + [ldLo] + [br] + k;
            Stepping(r, 0) && Emitting(r) && CheckNext(r)
  {
    hide CheckTrue, Stepping, TwoWays, CheckNext;
    var check, check' := CheckTrue(test, hi, br.onTrue, next), CheckTrue(Test.NotEqual, hi, br.onFalse, next + 1);
    var low := [ldLo] + ([br] + k);
    SteppingCons(br, k, 4);
    SteppingCons(ldLo, [br] + k, 3);
    NotHere(low, br.onFalse);
    CheckSteps(Test.NotEqual, hi, br.onFalse, next + 1, low, 2);
    NotHere(check' + low, br.onTrue);
    CheckSteps(test, hi, br.onTrue, next, check' + low, 1);
    SteppingCons(ldHi, check + (check' + low), 0);
    assert [ldHi] + check + check' + [ldLo] + [br] + k == [ldHi] + (check + (check' + low));
    CheckIsNext(ldHi, test, hi, br.onTrue, next, check' + low);
  }

  lemma ConditionSteps(c: Condition, na: Label, nc: Label, last: Label, o: Order, k: seq<Item>)
    requires Exits(k, na, nc) && na <= last && nc <= last
    ensures var r := ConditionItems(c, na, nc, last, o).items + k; Stepping(r, 0) && Emitting(r) && CheckNext(r)
  {
    hide ConditionItems, CheckTrue, HiOffset, LoOffset, Stepping, Hi, Lo, TwoWays, Emitting, CheckNext, Exits;
    ConditionCases(c, na, nc, last, o);
    var a, b := Labelled.Load(HiOffset(c.arg, o)), Labelled.Load(LoOffset(c.arg, o));
    var br := Branch(LowTest(c.op), Lo(c.value), na, nc);
    if c.op.Equal? || c.op.NotEqual? || c.op.BitsSet? || c.op.BitsNotSet? {
      var test := if c.op.BitsSet? || c.op.BitsNotSet? then Test.BitsSet else Test.NotEqual;
      OneCheckSteps(a, test, Hi(c.value), if c.op.Equal? || c.op.BitsNotSet? then nc else na, last + 1, b, br, k);
    } else {
      var test := if c.op.GreaterThan? || c.op.GreaterOrEqual? then Test.GreaterThan else Test.LessThan;
      TwoChecksStep(a, test, Hi(c.value), last + 1, b, br, k);
    }
  }

  lemma CheckIsNext(ld: Item, test: Test, val: uint32, to: Label, next: Label, k: seq<Item>)
    requires ld.Load?
    ensures CheckNext([ld] + (CheckTrue(test, val, to, next) + k))
  {}

  lemma {:induction false} SetSteps(cs: ConditionSet, action: Label, nc: Label, last: Label, o: Order, k: seq<Item>)
    requires cs != [] && Exits(k, action, nc) && action <= last && nc <= last
    ensures var r := SetItems(cs, action, nc, last, o).items + k; Stepping(r, 0) && Emitting(r) && CheckNext(r)
  {
    hide ConditionItems, Stepping, Within, CheckNext;
    var more := |cs| > 1;
    var last' := if more then last + 1 else last;
    var na := if more then last + 1 else action;
    var head := ConditionItems(cs[0], na, nc, last', o);
    var rest := SetItems(cs[1..], action, nc, head.last, o);
    if more {
      var q := rest.items + k;
      var k' := [Mark(na)] + q;
      assert SetItems(cs, action, nc, last, o).items + k == head.items + k';
      ConditionWithin(cs[0], na, nc, last', o);
      WithinGrows(head.items, last', head.last);
      SetSteps(cs[1..], action, nc, head.last, o, k);
      MarkedHere(na, q, nc);
      NotHere(q, nc);
      SteppingCons(Mark(na), q, 0);
      ConditionSteps(cs[0], na, nc, last', o, k');
    } else {
      assert cs[1..] == [] && rest.items == [];
      assert SetItems(cs, action, nc, last, o).items + k == head.items + k;
      ConditionSteps(cs[0], na, nc, last', o, k);
    }
  }

  predicate AllEmpty(sets: seq<ConditionSet>) { forall k :: 0 <= k < |sets| ==> sets[k] == [] }

  /** Conditions are given, but the last alternative has none. */
  predicate TrailsOff(sets: seq<ConditionSet>) { sets != [] && sets[|sets| - 1] == [] && !AllEmpty(sets) }

  /** Alternatives, with conditions or without; those without emit only marks. */
  lemma {:induction false} SetsSteps(sets: seq<ConditionSet>, action: Label, next: Label, last: Label, o: Order, k: seq<Item>)
    requires sets != [] && Exits(k, action, next) && action <= last && next <= last
    requires TrailsOff(sets) ==> Dist(k, action) > 0
    ensures var r := SetsItems(sets, action, next, last, o).items + k;
            && Stepping(r, 0)
            && forall l: Label :: l <= last ==> if AllEmpty(sets) then Dist(r, l) == Dist(k, l) else Dist(r, l) > 0
  {
    hide SetItems, Stepping, Within, CheckNext, Dist;
    var more := |sets| > 1;
    var last' := if more then last + 1 else last;
    var nc := if more then last + 1 else next;
    var head := SetItems(sets[0], action, nc, last', o);
    var rest := SetsItems(sets[1..], action, next, head.last, o);
    if more {
      var q := rest.items + k;
      var k' := [Mark(nc)] + q;
      assert SetsItems(sets, action, next, last, o).items + k == head.items + k';
      SetWithin(sets[0], action, nc, last', o);
      WithinGrows(head.items, last', head.last);
      MoreSets(sets);
      SetsSteps(sets[1..], action, next, head.last, o, k);
      forall l: Label | l <= last ensures Dist(k', l) == Dist(q, l) {
        MarkedHere(nc, q, l);
      }
      MarkedHere(nc, q, action);
      SteppingCons(Mark(nc), q, 0);
      if sets[0] == [] {
        NoSetItems(action, nc, last', o);
        assert head.items + k' == k';
      } else {
        SetSteps(sets[0], action, nc, last', o, k');
        EmittingAhead(head.items + k');
      }
    } else {
      assert sets[1..] == [] && rest.items == [];
      assert SetsItems(sets, action, next, last, o).items + k == head.items + k;
      if sets[0] == [] {
        NoSetItems(action, nc, last', o);
        assert head.items + k == k;
      } else {
        SetSteps(sets[0], action, nc, last', o, k);
        EmittingAhead(head.items + k);
      }
    }
  }

  lemma NoSetItems(action: Label, nc: Label, last: Label, o: Order)
    ensures SetItems([], action, nc, last, o) == Emitted([], last)
  {}

  lemma EmittingAhead(r: seq<Item>)
    requires Emitting(r)
    ensures forall l: Label :: Dist(r, l) > 0
  {}

  lemma MoreSets(sets: seq<ConditionSet>)
    requires |sets| > 1
    ensures AllEmpty(sets) <==> sets[0] == [] && AllEmpty(sets[1..])
    ensures TrailsOff(sets[1..]) ==> TrailsOff(sets)
    ensures sets[0] != [] && AllEmpty(sets[1..]) ==> TrailsOff(sets)
  {
    var rest := sets[1..];
    assert rest[|rest| - 1] == sets[|sets| - 1];
    assert forall k :: 0 < k < |sets| ==> sets[k] == rest[k - 1];
  }

  /** When more entries follow, the way on is right behind; otherwise it is `end`, just behind the return. */
  predicate WayOn(k: seq<Item>, more: bool, action: Label, end: Label) {
    Stepping(k, 0) && if more then Emitting(k) else Dist(k, action) == 0 && Dist(k, end) == 1
  }

  /** A check with nothing between its two ways on: the number check when no alternative has conditions and more entries follow,
      or the last check of the conditions when the last alternative has none and the action follows. */
  predicate UselessEntry(e: Entry, more: bool) {
    e.conditions != [] && if more then AllEmpty(e.conditions) else TrailsOff(e.conditions)
  }

  predicate UsefulEntries(es: seq<Entry>) { forall k :: 0 <= k < |es| ==> !UselessEntry(es[k], k < |es| - 1) }

  lemma EntrySteps(e: Entry, more: bool, action: Label, end: Label, last: Label, o: Order, k: seq<Item>)
    requires !UselessEntry(e, more) && WayOn(k, more, action, end) && action <= last && end <= last
    ensures var r := EntryItems(e, more, action, end, last, o).items + k; Stepping(r, 0) && Emitting(r)
  {
    hide SetsItems, Stepping, CheckNext, CheckTrue, AllEmpty, TrailsOff;
    if e.conditions == [] {
      if more {
        NotHere(k, action);
        CheckSteps(Test.Equal, e.num, action, last + 1, k, 0);
      } else {
        SteppingCons(Branch(Test.Equal, e.num, action, end), k, 0);
      }
    } else {
      var next := if more then last + 1 else end;
      var first := (if more then last + 1 else last) + 1;
      var sets := SetsItems(e.conditions, action, next, first, o);
      var check := CheckTrue(Test.NotEqual, e.num, next, first);
      var k' := MarkIf(more, next) + k;
      if more {
        NotHere(k, action);
        MarkedHere(next, k, action);
        SteppingCons(Mark(next), k, 0);
      } else {
        assert k' == k;
      }
      SetsSteps(e.conditions, action, next, first, o, k');
      CheckSteps(Test.NotEqual, e.num, next, first, sets.items + k', 0);
      assert check + sets.items + MarkIf(more, next) + k == check + (sets.items + k');
    }
  }

  lemma {:induction false} EntriesSteps(es: seq<Entry>, action: Label, end: Label, last: Label, o: Order, k: seq<Item>)
    requires es != [] && UsefulEntries(es) && WayOn(k, false, action, end) && action <= last && end <= last
    ensures var r := EntriesItems(es, action, end, last, o).items + k; Stepping(r, 0) && Emitting(r)
  {
    hide EntryItems, Stepping, Within, UselessEntry;
    var more := |es| > 1;
    var head := EntryItems(es[0], more, action, end, last, o);
    var rest := EntriesItems(es[1..], action, end, head.last, o);
    var q := rest.items + k;
    assert EntriesItems(es, action, end, last, o).items + k == head.items + q;
    if more {
      EntryWithin(es[0], more, action, end, last, o);
      WithinGrows(head.items, last, head.last);
      EntriesSteps(es[1..], action, end, head.last, o, k);
    } else {
      assert es[1..] == [] && q == k;
    }
    EntrySteps(es[0], more, action, end, last, o, q);
  }

  lemma TailSteps(action: Label, ret: Item, end: Label, k: seq<Item>)
    requires Stepping(k, 0) && ret.Return? && action != end
    ensures WayOn([Mark(action)] + ([ret] + ([Mark(end)] + k)), false, action, end)
  {
    hide Stepping;
    var t2 := [Mark(end)] + k;
    var t1 := [ret] + t2;
    assert t1[1..] == t2;
    SteppingCons(Mark(end), k, 0);
    SteppingCons(ret, t2, 0);
    SteppingCons(Mark(action), t1, 0);
    MarkedHere(end, k, end);
    MarkedHere(action, t1, end);
  }

  lemma GroupSteps(es: seq<Entry>, action: uint32, last: Label, o: Order, k: seq<Item>)
    requires es != [] && UsefulEntries(es) && Stepping(k, 0)
    ensures Stepping(GroupItems(es, action, last, o).items + k, 0)
  {
    hide EntriesItems, Stepping, WayOn;
    var body := EntriesItems(es, last + 1, last + 2, last + 2, o);
    var ret := Return(ReturnValue(action));
    var t := [Mark(last + 1)] + ([ret] + ([Mark(last + 2)] + k));
    TailSteps(last + 1, ret, last + 2, k);
    EntriesSteps(es, last + 1, last + 2, last + 2, o, t);
    assert GroupItems(es, action, last, o).items + k == body.items + t;
  }

  lemma {:induction false} GroupsStepping(groups: seq<SyscallGroup>, arch: ArchInfo, last: Label, o: Order, k: seq<Item>)
    requires GroupsItems(groups, arch, last, o).Ok? && Useful(groups, arch) && Stepping(k, 0)
    ensures Stepping(GroupsItems(groups, arch, last, o).value.items + k, 0)
  {
    hide GroupItems, Stepping, MergeGroup, UsefulEntries;
    if groups == [] {
      assert [] + k == k;
    } else if EmptyGroup(groups[0]) {
      GroupsStepping(groups[1..], arch, last, o, k);
    } else {
      var es := MergeGroup(groups[0], arch).entries;
      var head := GroupItems(es, groups[0].action, last, o);
      var rest := GroupsItems(groups[1..], arch, head.last, o).value.items;
      assert head.items + rest + k == head.items + (rest + k);
      GroupsStepping(groups[1..], arch, head.last, o, k);
      MergedNonempty(groups[0], arch);
      GroupSteps(es, groups[0].action, last, o, rest + k);
    }
  }

  /** No group that merges has a useless entry. */
  predicate Useful(groups: seq<SyscallGroup>, arch: ArchInfo) {
    forall k :: 0 <= k < |groups| && MergeGroup(groups[k], arch).problems == [] ==>
                  UsefulEntries(MergeGroup(groups[k], arch).entries)
  }

  lemma NonemptyIsUseful(groups: seq<SyscallGroup>, arch: ArchInfo)
    requires NonemptyConditions(groups)
    ensures Useful(groups, arch)
  {
    hide MergeGroup, ConditionsGiven, UsefulEntries, NonemptyEntries;
    forall k | 0 <= k < |groups| && MergeGroup(groups[k], arch).problems == []
      ensures UsefulEntries(MergeGroup(groups[k], arch).entries)
    {
      MergedSetsNonempty(groups[k], arch);
      NonemptyEntriesUseful(MergeGroup(groups[k], arch).entries);
    }
  }

  lemma NonemptyEntriesUseful(es: seq<Entry>)
    requires NonemptyEntries(es)
    ensures UsefulEntries(es)
  {
    forall k | 0 <= k < |es| ensures !UselessEntry(es[k], k < |es| - 1) {
      var sets := es[k].conditions;
      if sets != [] {
        assert sets[0] != [] && sets[|sets| - 1] != [];
      }
    }
  }

  /** No conditional entry of the policy has an empty list of conditions. */
  predicate NonemptyConditions(groups: seq<SyscallGroup>) {
    forall k :: 0 <= k < |groups| ==> ConditionsGiven(groups[k])
  }

  predicate ConditionsGiven(g: SyscallGroup) {
    forall i :: 0 <= i < |g.withConditions| ==> g.withConditions[i].conditions != []
  }

  lemma MergedSetsNonempty(g: SyscallGroup, arch: ArchInfo)
    requires MergeGroup(g, arch).problems == [] && ConditionsGiven(g)
    ensures NonemptyEntries(MergeGroup(g, arch).entries)
  {
    hide MergeConditionals;
    var ncs := g.withConditions;
    MergedForm(arch, g.names, ncs);
    var cs := ConditionalEntries(arch, ncs);
    forall k, i | 0 <= k < |cs| && 0 <= i < |cs[k].conditions| ensures cs[k].conditions[i] != [] {
      SetsForMeans(arch, ncs, cs[k].num, cs[k].conditions[i]);
    }
  }

  // ---- from the builder calls to the tables ----

  function StateOf(pre: seq<Item>): nat {
    if pre == [] then 0 else Next(StateOf(pre[..|pre| - 1]), pre[|pre| - 1])
  }

  lemma {:induction false} SteppingAt(pre: seq<Item>, a: seq<Item>, br: Item, rest: seq<Item>)
    requires Stepping(a + [br] + rest, StateOf(pre)) && br.Branch?
    ensures TwoWays(StateOf(pre + a), rest, br.onTrue, br.onFalse)
    decreases |a|
  {
    hide TwoWays;
    if a == [] {
      assert a + [br] + rest == [br] + rest && ([br] + rest)[1..] == rest;
      assert pre + a == pre;
    } else {
      var all := a + [br] + rest;
      assert all[1..] == a[1..] + [br] + rest;
      assert (pre + [a[0]])[..|pre|] == pre;
      assert pre + a == (pre + [a[0]]) + a[1..];
      SteppingAt(pre + [a[0]], a[1..], br, rest);
    }
  }

  /** How far back the last jumps are. */
  predicate Behind(js: seq<JumpRef>, n: nat, s: nat) {
    var m := |js|;
    && (forall k :: 0 <= k < m ==> js[k].index < n)
    && (s == 1 ==> m >= 1 ==> js[m - 1].index <= n - 2)
    && (s == 2 ==> m >= 2 ==> js[m - 2].index <= n - 3)
    && (s == 3 ==> m >= 3 ==> js[m - 3].index <= n - 4)
    && (s == 4 ==> m >= 3 ==> js[m - 3].index <= n - 5)
  }

  lemma BehindStep(js: seq<JumpRef>, n: nat, s: nat, it: Item)
    requires Behind(js, n, s) && Ascending(js)
    ensures Behind(if it.Branch? then js + [JumpRef(n, it.onTrue, it.onFalse)] else js, n + Emits(it), Next(s, it))
  {
    var m := |js|;
    if m >= 3 {
      assert js[m - 3].index < js[m - 2].index;
    }
  }

  lemma JumpsSnoc(init: seq<Item>, it: Item)
    ensures Size(init + [it]) == Size(init) + Emits(it)
    ensures JumpsOf(init + [it], 0)
            == if it.Branch? then JumpsOf(init, 0) + [JumpRef(Size(init), it.onTrue, it.onFalse)] else JumpsOf(init, 0)
  {
    assert [it][1..] == [];
    JumpsConcat(init, [it], 0);
    SizeConcat(init, [it]);
  }

  lemma {:induction false} StateMeans(pre: seq<Item>)
    ensures Behind(JumpsOf(pre, 0), Size(pre), StateOf(pre))
  {
    hide Behind, Next, Size, JumpsOf, Emits;
    if pre == [] {
      NothingBehind();
    } else {
      var init, it := pre[..|pre| - 1], pre[|pre| - 1];
      assert pre == init + [it];
      StateMeans(init);
      JumpsAscend(init, 0);
      JumpsSnoc(init, it);
      BehindStep(JumpsOf(init, 0), Size(init), StateOf(init), it);
    }
  }

  lemma NothingBehind()
    ensures Behind(JumpsOf([], 0), Size([]), StateOf([]))
  {}

  /** The jump number and the table entry of a branch of the program. */
  lemma BranchNumber(items: seq<Item>, q: nat) returns (pre: seq<Item>, br: Item, rest: seq<Item>)
    requires q < |JumpsOf(items, 0)|
    ensures items == pre + [br] + rest && br.Branch? && |JumpsOf(pre, 0)| == q
    ensures JumpsOf(items, 0) == JumpsOf(pre, 0) + [JumpRef(Size(pre), br.onTrue, br.onFalse)] + JumpsOf(rest, Size(pre) + 1)
  {
    hide JumpsOf, Size;
    pre, br, rest := JumpSplit(items, 0, q);
    JumpsAround(pre, br, rest);
    JumpsAscend(items, 0);
    var js, n := JumpsOf(items, 0), |JumpsOf(pre, 0)|;
    assert js[n].index == js[q].index;
  }

  lemma JumpsAround(pre: seq<Item>, br: Item, rest: seq<Item>)
    requires br.Branch?
    ensures JumpsOf(pre + [br] + rest, 0)
            == JumpsOf(pre, 0) + [JumpRef(Size(pre), br.onTrue, br.onFalse)] + JumpsOf(rest, Size(pre) + 1)
  {
    var tail := [br] + rest;
    assert pre + [br] + rest == pre + tail && tail[0] == br && tail[1..] == rest;
    JumpsConcat(pre, tail, 0);
  }

  lemma {:induction false} CheckFollows(items: seq<Item>, base: Index)
    requires CheckNext(items)
    ensures JumpsOf(items, base) != [] && JumpsOf(items, base)[0].index <= base + 1
  {
    match items[0]
    case Load(_) =>
    case Branch(_, _, _, _) =>
    case Mark(_) => CheckFollows(items[1..], base);
  }

  lemma SplitBranch(items: seq<Item>, q: nat) returns (pre: seq<Item>, br: Item, rest: seq<Item>)
    requires Stepping(items, 0) && Closed(items) && q < |JumpsOf(items, 0)|
    ensures items == pre + [br] + rest && br.Branch? && |JumpsOf(pre, 0)| == q
    ensures JumpsOf(items, 0) == JumpsOf(pre, 0) + [JumpRef(Size(pre), br.onTrue, br.onFalse)] + JumpsOf(rest, Size(pre) + 1)
    ensures TwoWays(StateOf(pre), rest, br.onTrue, br.onFalse)
    ensures Marks(rest, br.onTrue) && Marks(rest, br.onFalse)
  {
    hide Stepping, Closed, JumpsOf, Marks, StateOf, TwoWays, Size;
    pre, br, rest := BranchNumber(items, q);
    SteppingFromStart(pre, br, rest);
    MarkedBehind(pre, br, rest);
  }

  lemma SteppingFromStart(pre: seq<Item>, br: Item, rest: seq<Item>)
    requires Stepping(pre + [br] + rest, 0) && br.Branch?
    ensures TwoWays(StateOf(pre), rest, br.onTrue, br.onFalse)
  {
    assert StateOf([]) == 0;
    hide Stepping, StateOf, TwoWays;
    assert [] + pre == pre;
    SteppingAt([], pre, br, rest);
  }

  lemma MarkedBehind(pre: seq<Item>, br: Item, rest: seq<Item>)
    requires Closed(pre + [br] + rest) && br.Branch?
    ensures Marks(rest, br.onTrue) && Marks(rest, br.onFalse)
  {
    hide Closed, Marks;
    assert pre + [br] + rest == pre + ([br] + rest);
    ClosedSuffix(pre, [br] + rest);
    ClosedHead(br, rest);
  }

  /** At the start, every jump of a stepping program whose labels are all set later is open. */
  lemma StartsOpen(items: seq<Item>, q: nat)
    requires Stepping(items, 0) && Closed(items) && q < |Whole(items).jumps|
    ensures Open(Whole(items), 0, q)
  {
    hide Stepping, Closed, Whole, Size, JumpsOf, Dist, Marks, StateOf, CheckNext, Way, Followed;
    WholeTables(items, 0);
    var pre, br, rest := SplitBranch(items, q);
    WayOfBranch(pre, br, rest, br.onTrue);
    WayOfBranch(pre, br, rest, br.onFalse);
    if StateOf(pre) == 4 && CheckNext(rest) {
      StartsFollowed(items, q, pre, br, rest);
    }
  }

  lemma WayOfBranch(pre: seq<Item>, br: Item, rest: seq<Item>, l: Label)
    requires br.Branch? && Marks(rest, l)
    ensures Way(Whole(pre + [br] + rest), l, Size(pre)) == Some(Size(pre) + 1 + Dist(rest, l))
  {
    hide Whole, Dist, Size;
    TargetOfBranch(pre, br, rest, l);
  }

  lemma StartsFollowed(items: seq<Item>, q: nat, pre: seq<Item>, br: Item, rest: seq<Item>)
    requires items == pre + [br] + rest && br.Branch? && |JumpsOf(pre, 0)| == q && StateOf(pre) == 4 && CheckNext(rest)
    requires JumpsOf(items, 0) == JumpsOf(pre, 0) + [JumpRef(Size(pre), br.onTrue, br.onFalse)] + JumpsOf(rest, Size(pre) + 1)
    ensures Followed(Whole(items), 0, q)
  {
    hide JumpsOf, Size, CheckNext, Whole, StateOf;
    WholeTables(items, 0);
    StateMeans(pre);
    CheckFollows(rest, Size(pre) + 1);
  }

  /** Every jump of a policy starts open. */
  lemma PolicyOpen(groups: seq<SyscallGroup>, default: uint32, arch: ArchInfo, o: Order)
    requires Useful(groups, arch) && GroupsItems(groups, arch, 1, o).Ok?
    ensures var c := Whole(PolicyItems(groups, default, arch, o));
            Ready(c) && forall q :: 0 <= q < |c.jumps| ==> Open(c, 0, q)
  {
    hide GroupsItems, Ready, Whole, Stepping, Closed, Open, Useful;
    var items := PolicyItems(groups, default, arch, o);
    var ret := [Return(ReturnValue(default))];
    ClosedReturn(ReturnValue(default));
    GroupsClosed(groups, arch, 1, o, ret);
    ReturnSteps(ret[0]);
    GroupsStepping(groups, arch, 1, o, ret);
    PolicyReady(groups, default, arch, o);
    forall q | 0 <= q < |Whole(items).jumps| ensures Open(Whole(items), 0, q) {
      StartsOpen(items, q);
    }
  }

  /** The compiler rejects no policy without useless entries for its control flow: a filter results if and only if every group
      merges. Conditional system calls may be of any length, and so may lists of conditions, down to none. */
  lemma FilterAccepts(groups: seq<SyscallGroup>, default: uint32, arch: ArchInfo, o: Order)
    requires Useful(groups, arch)
    ensures Filter(groups, default, arch, o).Ok? <==>
            forall k :: 0 <= k < |groups| ==> MergeGroup(groups[k], arch).problems == []
  {
    hide GroupsItems, MergeGroup, AssembleFrom, Ready, Whole, Open, Useful;
    GroupsMergeIff(groups, arch, 1, o);
    if GroupsItems(groups, arch, 1, o).Ok? {
      PolicyOpen(groups, default, arch, o);
      AssembleAccepts(Whole(PolicyItems(groups, default, arch, o)), 0);
    }
  }

  lemma ReturnSteps(ret: Item)
    requires ret.Return?
    ensures Stepping([ret], 0)
  {
    assert [ret][1..] == [];
  }

  lemma {:induction false} GroupsMergeIff(groups: seq<SyscallGroup>, arch: ArchInfo, last: Label, o: Order)
    ensures GroupsItems(groups, arch, last, o).Ok? <==>
            forall k :: 0 <= k < |groups| ==> MergeGroup(groups[k], arch).problems == []
  {
    hide GroupItems, MergeGroup;
    if groups != [] {
      var rest := groups[1..];
      assert forall k :: 1 <= k < |groups| ==> groups[k] == rest[k - 1];
      if EmptyGroup(groups[0]) {
        EmptyMerges(groups[0], arch);
        GroupsMergeIff(rest, arch, last, o);
      } else if MergeGroup(groups[0], arch).problems == [] {
        GroupsMergeIff(rest, arch, GroupItems(MergeGroup(groups[0], arch).entries, groups[0].action, last, o).last, o);
      }
    }
  }

  lemma EmptyMerges(g: SyscallGroup, arch: ArchInfo)
    requires EmptyGroup(g)
    ensures MergeGroup(g, arch).problems == []
  {}

  // ---- what every policy gets, however long it is ----

  lemma ResolveKeepsEnd(c: Code, r: nat, l: Label)
    requires Ready(c) && r < |c.jumps| && Positions(c, l) != []
    requires c.instrs != [] && c.instrs[|c.instrs| - 1].RetConstant?
    ensures var d := Resolve(c, c.jumps[r], l).0;
            && |c.instrs| <= |d.instrs| <= |c.instrs| + 1
            && d.instrs[|d.instrs| - 1] == c.instrs[|c.instrs| - 1]
  {
    hide Ready, Resolve, Reach;
    var j := c.jumps[r];
    ResolveCases(c, j, l);
    if DropUpTo(c.labels[l], j.index) != [] {
      ReachCases(Popped(c, j, l), j, l);
    }
  }

  lemma JumpKeepsEnd(c: Code, r: nat)
    requires Ready(c) && r < |c.jumps|
    requires c.instrs != [] && c.instrs[|c.instrs| - 1].RetConstant?
    ensures var d := ResolveJump(c, r).0;
            && |c.instrs| <= |d.instrs| <= |c.instrs| + 2
            && d.instrs[|d.instrs| - 1] == c.instrs[|c.instrs| - 1]
  {
    hide Ready, Resolve;
    var j := c.jumps[r];
    ReadyJump(c, r);
    ResolveKeepsReady(c, r, j.onTrue);
    ResolveKeepsEnd(c, r, j.onTrue);
    var (d, t) := Resolve(c, j, j.onTrue);
    if t.Ok? {
      ReadyJump(d, r);
      ResolveKeepsReady(d, r, j.onFalse);
      ResolveKeepsEnd(d, r, j.onFalse);
      ReadyJump(Resolve(d, j, j.onFalse).0, r);
    }
  }

  /** Whatever the program, resolution leaves its last return last and adds at most two instructions for each jump. */
  lemma {:induction false} AssembleKeepsEnd(c: Code, r: nat)
    requires Ready(c) && r <= |c.jumps|
    requires c.instrs != [] && c.instrs[|c.instrs| - 1].RetConstant?
    ensures var d := AssembleFrom(c, r).0;
            && |c.instrs| <= |d.instrs| <= |c.instrs| + 2 * (|c.jumps| - r)
            && d.instrs[|d.instrs| - 1] == c.instrs[|c.instrs| - 1]
    decreases |c.jumps| - r
  {
    hide Ready, ResolveJump;
    if r < |c.jumps| {
      AssembleFromStep(c, r);
      JumpKeepsEnd(c, r);
      if ResolveJump(c, r).1.None? {
        AssembleKeepsEnd(ResolveJump(c, r).0, r + 1);
      }
    }
  }

  /** What a filter consists of, with no limit on the length of conditional system calls. */
  lemma FilterBody(groups: seq<SyscallGroup>, default: uint32, arch: ArchInfo, o: Order) returns (body: seq<Instr>)
    requires Filter(groups, default, arch, o).Ok?
    ensures GroupsItems(groups, arch, 1, o).Ok? && Ready(Whole(PolicyItems(groups, default, arch, o)))
    ensures body == AssembleFrom(Whole(PolicyItems(groups, default, arch, o)), 0).0.instrs
    ensures body != [] && body[|body| - 1] == RetConstant(ReturnValue(default))
    ensures Filter(groups, default, arch, o).value == Prologue(arch, body)
    ensures |Prologue(arch, body)| <= 3 * PolicySize(groups, arch) + 6
  {
    hide GroupsItems, Whole, AssembleFrom, Ready, Prologue, PolicySize;
    PolicyReady(groups, default, arch, o);
    var items := PolicyItems(groups, default, arch, o);
    WholeTables(items, 0);
    EndsInReturn(items);
    AssembleKeepsEnd(Whole(items), 0);
    body := AssembleFrom(Whole(items), 0).0.instrs;
    GroupsItemsSize(groups, arch, 1, o);
    SizeConcat(GroupsItems(groups, arch, 1, o).value.items, [Return(ReturnValue(default))]);
    OneItem(Return(ReturnValue(default)));
    JumpsBounded(items, 0);
    PrologueLength(arch, body);
  }

  lemma PrologueLength(arch: ArchInfo, body: seq<Instr>)
    ensures |Prologue(arch, body)| <= |body| + 6
  {}

  /** In every filter the compiler produces, safe or not, both forms of the prologue send a foreign architecture to the
      default return, and on x86_64 the numbers from the x32 bit on to errno ENOSYS; any other call runs the resolved body from
      its number. */
  lemma HeaderDecides(groups: seq<SyscallGroup>, default: uint32, arch: ArchInfo, o: Order, acc: uint32, d: SeccompData)
    requires Filter(groups, default, arch, o).Ok? && 3 * PolicySize(groups, arch) + 6 < TWO_TO_32
    ensures GroupsItems(groups, arch, 1, o).Ok? && Ready(Whole(PolicyItems(groups, default, arch, o)))
    ensures var v := Run(Filter(groups, default, arch, o).value, acc, EnvOf(d, o));
            var body := AssembleFrom(Whole(PolicyItems(groups, default, arch, o)), 0).0.instrs;
            v == if d.arch != arch.id then Verdict(if default == 0x5_0000 then 0x5_0001 else default)
                 else if arch.id == 0xc000_003e && d.nr >= 0x4000_0000 then Verdict(0x5_0026)
                 else Run(body, d.nr, EnvOf(d, o))
  {
    hide Filter, Run, EnvOf, PolicySize, Prologue;
    var body := FilterBody(groups, default, arch, o);
    PrologueRuns(arch, body, d, o, acc);
  }

  /** The tables of every policy whose groups merge are well formed, before and after resolution. */
  lemma PolicySound(groups: seq<SyscallGroup>, default: uint32, arch: ArchInfo, o: Order)
    requires GroupsItems(groups, arch, 1, o).Ok?
    ensures Sound(Whole(PolicyItems(groups, default, arch, o)))
    ensures Ready(Whole(PolicyItems(groups, default, arch, o)))
    ensures Sound(AssembleFrom(Whole(PolicyItems(groups, default, arch, o)), 0).0)
  {
    hide Sound, Ready, AssembleFrom, GroupsItems;
    EmptySound();
    PolicyReady(groups, default, arch, o);
    BuiltIsSound(EMPTY, PolicyItems(groups, default, arch, o));
    AssembleKeepsSound(Whole(PolicyItems(groups, default, arch, o)), 0);
  }
}
