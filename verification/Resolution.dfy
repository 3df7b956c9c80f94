/** Label resolution keeps the meaning of every tame program: one whose far jumps all go to the return that
    ends their own stretch of code. */
module Resolution {
  import opened Results
  import opened Words
  import opened Bpf
  import opened Labelled
  import opened Assembler

  // ---- tame programs ----

  /** The first return at or after `i`. */
  function NextRet(instrs: seq<Instr>, i: Index): (r: Index)
    ensures i <= r
    ensures i < |instrs| ==> r <= |instrs|
    ensures forall k :: i <= k < r && k < |instrs| ==> !instrs[k].RetConstant?
    ensures r < |instrs| ==> instrs[r].RetConstant?
    decreases |instrs| - i
  {
    if i >= |instrs| || instrs[i].RetConstant? then i else NextRet(instrs, i + 1)
  }

  lemma {:induction false} NextRetInside(instrs: seq<Instr>, i: Index, k: Index)
    requires i <= k <= NextRet(instrs, i)
    ensures NextRet(instrs, k) == NextRet(instrs, i)
    decreases k - i
  {
    if i < k {
      NextRetInside(instrs, i + 1, k);
    }
  }

  lemma NextRetMonotone(instrs: seq<Instr>, i: Index, k: Index)
    requires i <= k < |instrs|
    ensures NextRet(instrs, i) <= NextRet(instrs, k)
    ensures NextRet(instrs, i) == NextRet(instrs, k) || NextRet(instrs, i) < k
  {
    if k <= NextRet(instrs, i) {
      NextRetInside(instrs, i, k);
    }
  }

  function LabelOf(j: JumpRef, taken: bool): Label { if taken then j.onTrue else j.onFalse }

  function Source(c: Code, q: nat): Index
    requires q < |c.jumps|
  {
    c.jumps[q].index
  }

  predicate Single(c: Code, q: nat, taken: bool)
    requires q < |c.jumps|
  {
    |Positions(c, LabelOf(c.jumps[q], taken))| == 1
  }

  function Dest(c: Code, q: nat, taken: bool): Index
    requires q < |c.jumps|
  {
    var ps := Positions(c, LabelOf(c.jumps[q], taken));
    if ps == [] then 0 else ps[0]
  }

  /** The return that ends the stretch of code jump `q` stands in. */
  function Home(c: Code, q: nat): Index
    requires q < |c.jumps|
  {
    NextRet(c.instrs, Source(c, q))
  }

  predicate IsExit(c: Code, q: nat, taken: bool)
    requires q < |c.jumps|
  {
    Dest(c, q, taken) == Home(c, q)
  }

  /** A branch either leaves for the return of its own stretch, at any distance, or is short. The last 2 of the 255
      instructions a short branch may span are available only when neither it nor the next instruction can leave. */
  predicate TameEdge(c: Code, q: nat, taken: bool)
    requires q < |c.jumps|
  {
    && Single(c, q, taken) && Single(c, q, !taken)
    && Source(c, q) < Dest(c, q, taken) < |c.instrs|
    && Dest(c, q, taken) != Dest(c, q, !taken)
    && (IsExit(c, q, taken) || (
          && Dest(c, q, taken) <= Home(c, q) + 1
          && Dest(c, q, taken) - Source(c, q) <= 255
          && (Dest(c, q, taken) - Source(c, q) <= 253
              || (c.instrs[Source(c, q) + 1].LoadAbsolute? && !IsExit(c, q, !taken)))))
  }

  predicate LoadsBeforeJumps(instrs: seq<Instr>) {
    forall i :: 0 <= i < |instrs| && instrs[i].LoadAbsolute? ==> i + 1 < |instrs| && instrs[i + 1].JumpIf?
  }

  /** The jump table lists every conditional jump. */
  ghost predicate Exact(c: Code) {
    forall i :: 0 <= i < |c.instrs| && c.instrs[i].JumpIf? ==> exists q :: 0 <= q < |c.jumps| && c.jumps[q].index == i
  }

  /** Two branches that leave for the same return name it by the same label. */
  predicate OneExitLabel(c: Code, q: nat, b: bool, p: nat, a: bool)
    requires q < |c.jumps| && p < |c.jumps|
  {
    Single(c, q, b) && Single(c, p, a) && IsExit(c, q, b) && IsExit(c, p, a) && Home(c, q) == Home(c, p)
    ==> LabelOf(c.jumps[q], b) == LabelOf(c.jumps[p], a)
  }

  ghost predicate Tame(c: Code) {
    && Ascending(c.jumps)
    && (forall q :: 0 <= q < |c.jumps| ==> IsJump(c, c.jumps[q].index))
    && Exact(c)
    && |c.instrs| > 0 && c.instrs[|c.instrs| - 1].RetConstant?
    && (forall i :: 0 <= i < |c.instrs| ==> !c.instrs[i].Jump?)
    && LoadsBeforeJumps(c.instrs)
    && (forall q, b :: 0 <= q < |c.jumps| ==> TameEdge(c, q, b))
    && (forall q, b, p, a :: 0 <= q < |c.jumps| && 0 <= p < |c.jumps| ==> OneExitLabel(c, q, b, p, a))
  }

  // ---- the tables while resolution is under way ----

  /** Where the original instructions are now (`pos`), and the first one that lies past every copy inserted so far (`cut`). */
  datatype View = View(pos: seq<Index>, cut: nat)

  function Erase(i: Instr): Instr { if i.JumpIf? then i.(skipTrue := 0, skipFalse := 0) else i }

  ghost predicate Apart(pos: seq<Index>) {
    forall x, y :: 0 <= x < y < |pos| ==> pos[y] - pos[x] >= y - x
  }

  /** The arithmetic part of the invariant: places only move apart, and only behind a jump. */
  ghost predicate Spread(instrs: seq<Instr>, v: View, n: nat) {
    && |v.pos| == |instrs| + 1
    && v.cut < |instrs|
    && v.pos[0] == 0 && v.pos[|instrs|] == n
    && Apart(v.pos)
    && (forall x :: v.cut <= x < |v.pos| ==> v.pos[x] - x == n - |instrs|)
    && (forall x :: 0 <= x < |instrs| && !instrs[x].JumpIf? ==> v.pos[x + 1] == v.pos[x] + 1)
  }

  ghost predicate Grown(c: Code, d: Code, v: View) {
    && Spread(c.instrs, v, |d.instrs|)
    && (forall x :: 0 <= x < |c.instrs| ==> v.pos[x] < |d.instrs| && Erase(d.instrs[v.pos[x]]) == Erase(c.instrs[x]))
    && |d.jumps| == |c.jumps|
    && (forall q :: 0 <= q < |c.jumps| ==>
          c.jumps[q].index < |c.instrs| && d.jumps[q] == c.jumps[q].(index := v.pos[c.jumps[q].index]))
  }

  /** The position list of a branch still to be resolved: the place of its destination, behind at most one copy of it. */
  ghost predicate Pending(c: Code, d: Code, v: View, q: nat, b: bool) {
    && Grown(c, d, v) && q < |c.jumps| && TameEdge(c, q, b)
    && var ps, t, i := Positions(d, LabelOf(c.jumps[q], b)), Dest(c, q, b), Source(c, q);
       || (ps == [v.pos[t]] && (IsExit(c, q, b) ==> v.cut <= i))
       || (IsExit(c, q, b) && |ps| == 2 && ps[0] + 1 == v.pos[v.cut] && ps[1] == v.pos[t]
           && HasCopy(c, d, v, t) && ps[0] <= v.pos[i] + 255)
  }

  /** A copy of the return at `t` stands just before the `cut`, inside the stretch that `t` ends. */
  ghost predicate HasCopy(c: Code, d: Code, v: View, t: Index) {
    && Grown(c, d, v)
    && 0 < v.cut <= t < |c.instrs|
    && NextRet(c.instrs, v.cut - 1) == t
    && v.pos[v.cut] == v.pos[v.cut - 1] + 2
    && d.instrs[v.pos[v.cut - 1] + 1] == c.instrs[t]
  }

  /** A skip of jump `q` that takes it to its destination or to a copy of it. */
  ghost predicate Lands(c: Code, d: Code, v: View, q: nat, b: bool, skip: nat) {
    && Grown(c, d, v) && q < |c.jumps| && TameEdge(c, q, b)
    && var t, e := Dest(c, q, b), v.pos[Source(c, q)] + 1 + skip;
       e == v.pos[t] || (IsExit(c, q, b) && e < v.pos[v.cut] && e !in v.pos && d.instrs[e] == c.instrs[t])
  }

  function StoredSkip(i: Instr, b: bool): nat
    requires i.JumpIf?
  {
    if b then i.skipTrue else i.skipFalse
  }

  ghost predicate Landed(c: Code, d: Code, v: View, q: nat, b: bool) {
    && Grown(c, d, v) && q < |c.jumps| && Source(c, q) < |c.instrs|
    && var i := d.instrs[v.pos[Source(c, q)]];
       i.JumpIf? && Lands(c, d, v, q, b, StoredSkip(i, b))
  }

  /** A short branch has at most one copy inside it. */
  ghost predicate Slack(c: Code, v: View, q: nat, b: bool) {
    && q < |c.jumps| && TameEdge(c, q, b) && |v.pos| == |c.instrs| + 1
    && (!IsExit(c, q, b) ==> v.pos[Dest(c, q, b)] - v.pos[Source(c, q)] <= Dest(c, q, b) - Source(c, q) + 1)
  }

  ghost predicate OnlyFrom(c: Code, d: Code) {
    forall p :: 0 <= p < |d.instrs| ==> d.instrs[p].JumpIf? || d.instrs[p] in c.instrs
  }

  /** The tables after the first `r` jumps of `c` have been written back. */
  ghost predicate Under(c: Code, d: Code, v: View, r: nat) {
    && Grown(c, d, v)
    && Ready(d) && Exact(d) && OnlyFrom(c, d)
    && r <= |c.jumps|
    && (forall q, b :: r <= q < |c.jumps| ==> Pending(c, d, v, q, b))
    && (forall q, b :: 0 <= q < r ==> Landed(c, d, v, q, b))
    && (forall q, b :: 0 <= q < |c.jumps| ==> Slack(c, v, q, b))
  }

  // ---- what the invariant says, one fact at a time ----

  lemma EdgeOf(c: Code, q: nat, b: bool)
    requires Tame(c) && q < |c.jumps|
    ensures TameEdge(c, q, b) && IsJump(c, Source(c, q))
  {}

  lemma GrownOf(c: Code, d: Code, v: View, r: nat)
    requires Under(c, d, v, r)
    ensures Grown(c, d, v) && Ready(d) && Exact(d) && OnlyFrom(c, d) && r <= |c.jumps|
  {
    hide Grown, Ready, Exact, OnlyFrom, Pending, Landed, Slack;
  }

  lemma PendingOf(c: Code, d: Code, v: View, r: nat, q: nat, b: bool)
    requires Under(c, d, v, r) && r <= q < |c.jumps|
    ensures Pending(c, d, v, q, b)
  {
    hide Grown, Ready, Exact, OnlyFrom, Pending, Landed, Slack;
  }

  lemma LandedOf(c: Code, d: Code, v: View, r: nat, q: nat, b: bool)
    requires Under(c, d, v, r) && q < r
    ensures Landed(c, d, v, q, b)
  {
    hide Grown, Ready, Exact, OnlyFrom, Pending, Landed, Slack;
  }

  lemma SlackOf(c: Code, d: Code, v: View, r: nat, q: nat, b: bool)
    requires Under(c, d, v, r) && q < |c.jumps|
    ensures Slack(c, v, q, b)
  {
    hide Grown, Ready, Exact, OnlyFrom, Pending, Landed, Slack;
  }

  lemma PosGap(c: Code, d: Code, v: View, x: Index, y: Index)
    requires Grown(c, d, v) && x <= y <= |c.instrs|
    ensures |v.pos| == |c.instrs| + 1
    ensures v.pos[y] - v.pos[x] >= y - x && v.pos[y] <= |d.instrs|
    ensures v.cut <= x ==> v.pos[y] - v.pos[x] == y - x
  {
    if y < |c.instrs| {
      assert v.pos[y] < v.pos[|c.instrs|];
    }
  }

  lemma LaterJump(c: Code, r: nat, q: nat)
    requires Tame(c) && r <= q < |c.jumps|
    ensures Source(c, r) <= Source(c, q) < |c.instrs| && (r < q ==> Source(c, r) < Source(c, q))
    ensures Home(c, r) == Home(c, q) || Home(c, r) < Source(c, q)
    ensures Source(c, q) < Home(c, q) < |c.instrs|
  {
    assert IsJump(c, c.jumps[q].index);
    NextRetMonotone(c.instrs, Source(c, r), Source(c, q));
    NextRetExists(c.instrs, Source(c, q));
  }

  lemma {:induction false} NextRetExists(instrs: seq<Instr>, i: Index)
    requires i < |instrs| && instrs[|instrs| - 1].RetConstant?
    ensures NextRet(instrs, i) < |instrs|
    decreases |instrs| - i
  {
    if !instrs[i].RetConstant? {
      NextRetExists(instrs, i + 1);
    }
  }

  /** A later branch under the label of a branch that leaves also leaves, for the same return. */
  lemma SameLabelLeaves(c: Code, r: nat, b: bool, q: nat, a: bool)
    requires Tame(c) && r <= q < |c.jumps| && TameEdge(c, r, b) && IsExit(c, r, b)
    requires LabelOf(c.jumps[q], a) == LabelOf(c.jumps[r], b)
    ensures TameEdge(c, q, a) && IsExit(c, q, a) && Home(c, q) == Home(c, r) == Dest(c, q, a)
  {
    hide Tame;
    EdgeOf(c, q, a);
    LaterJump(c, r, q);
  }

  // ---- resolving one branch ----

  lemma Start(c: Code)
    requires Tame(c) && Ready(c)
    ensures Under(c, c, View(seq(|c.instrs| + 1, x => x), 0), 0)
  {
    var v := View(seq(|c.instrs| + 1, x => x), 0);
    StartGrown(c, v);
    hide Tame, Ready, Grown, Exact, OnlyFrom, Pending, Landed, Slack;
    forall q, b | 0 <= q < |c.jumps| ensures Pending(c, c, v, q, b) && Slack(c, v, q, b) {
      StartEdge(c, v, q, b);
    }
  }

  lemma StartGrown(c: Code, v: View)
    requires Tame(c) && v == View(seq(|c.instrs| + 1, x => x), 0)
    ensures Grown(c, c, v) && Exact(c) && OnlyFrom(c, c)
  {
    hide TameEdge, OneExitLabel, LoadsBeforeJumps;
  }

  lemma StartEdge(c: Code, v: View, q: nat, b: bool)
    requires Tame(c) && Grown(c, c, v) && v == View(seq(|c.instrs| + 1, x => x), 0) && q < |c.jumps|
    ensures Pending(c, c, v, q, b) && Slack(c, v, q, b)
  {
    hide Tame, Grown, NextRet;
    EdgeOf(c, q, b);
  }

  lemma RelabelSame(d: Code, l: Label)
    requires l in d.labels
    ensures Relabel(d, l, d.labels[l]) == d
  {}

  /** What resolving label `l` of jump number `r` yields. */
  ghost predicate Resolves(d: Code, r: nat, l: Label, e: Code, skip: int) {
    && Ready(d) && r < |d.jumps| && Positions(d, l) != []
    && 0 <= skip <= 255 && Resolve(d, d.jumps[r], l) == (e, Ok(skip))
  }

  /** The jump that is resolved next, as the tables have it now. */
  lemma JumpNow(c: Code, d: Code, v: View, r: nat)
    requires Tame(c) && Under(c, d, v, r) && r < |c.jumps|
    ensures Source(c, r) < |c.instrs| == |v.pos| - 1 && |d.jumps| == |c.jumps|
    ensures d.jumps[r] == c.jumps[r].(index := v.pos[Source(c, r)]) && Resolvable(d, d.jumps[r])
  {
    hide Tame;
    EdgeOf(c, r, true);
    GrownOf(c, d, v, r);
    assert Resolvable(d, d.jumps[r]);
  }

  /** When the first position ahead is within reach, resolution only drops the positions behind. */
  lemma ResolvesNear(d: Code, r: nat, l: Label)
    requires Ready(d) && r < |d.jumps| && Positions(d, l) != []
    requires var ps := DropUpTo(d.labels[l], d.jumps[r].index);
             ps != [] && ps[0] - d.jumps[r].index - 1 <= 255
    ensures var ps := DropUpTo(d.labels[l], d.jumps[r].index);
            Resolves(d, r, l, Relabel(d, l, ps), ps[0] - d.jumps[r].index - 1)
  {
    hide Ready, Resolve, Reach;
    var j := d.jumps[r];
    ResolveCases(d, j, l);
    ReachCases(Relabel(d, l, DropUpTo(d.labels[l], j.index)), j, l);
  }

  /** A short branch resolves at once and changes nothing. */
  lemma ResolveShort(c: Code, d: Code, v: View, r: nat, b: bool) returns (skip: int)
    requires Tame(c) && Under(c, d, v, r) && r < |c.jumps| && !IsExit(c, r, b)
    ensures Resolves(d, r, LabelOf(c.jumps[r], b), d, skip) && Lands(c, d, v, r, b, skip)
  {
    hide Tame, Ready, Under, Resolves, Grown;
    JumpNow(c, d, v, r);
    GrownOf(c, d, v, r);
    EdgeOf(c, r, b);
    PendingOf(c, d, v, r, r, b);
    SlackOf(c, d, v, r, r, b);
    var l, t := LabelOf(c.jumps[r], b), Dest(c, r, b);
    PosGap(c, d, v, Source(c, r), t);
    RelabelSame(d, l);
    assert DropUpTo(d.labels[l], d.jumps[r].index) == d.labels[l];
    ResolvesNear(d, r, l);
    skip := v.pos[t] - d.jumps[r].index - 1;
  }

  lemma GrownRelabelled(c: Code, d: Code, v: View, l: Label, ps: seq<Index>)
    requires Grown(c, d, v) && Exact(d) && OnlyFrom(c, d)
    ensures Grown(c, Relabel(d, l, ps), v) && Exact(Relabel(d, l, ps)) && OnlyFrom(c, Relabel(d, l, ps))
  {}

  lemma LandedRelabelled(c: Code, d: Code, v: View, q: nat, b: bool, l: Label, ps: seq<Index>)
    requires Landed(c, d, v, q, b) && Grown(c, Relabel(d, l, ps), v)
    ensures Landed(c, Relabel(d, l, ps), v, q, b)
  {
    hide Grown;
  }

  lemma PendingPopped(c: Code, d: Code, v: View, r: nat, b: bool, q: nat, a: bool)
    requires Tame(c) && r <= q < |c.jumps| && IsExit(c, r, b) && v.cut <= Source(c, r)
    requires Pending(c, d, v, q, a) && Home(c, r) < |v.pos|
    requires Grown(c, Relabel(d, LabelOf(c.jumps[r], b), [v.pos[Home(c, r)]]), v)
    ensures Pending(c, Relabel(d, LabelOf(c.jumps[r], b), [v.pos[Home(c, r)]]), v, q, a)
  {
    hide Tame, Grown;
    EdgeOf(c, r, b);
    EdgeOf(c, q, a);
    LaterJump(c, r, q);
    if LabelOf(c.jumps[q], a) == LabelOf(c.jumps[r], b) {
      SameLabelLeaves(c, r, b, q, a);
    }
  }

  /** Dropping a copy that lies behind the jump being resolved. */
  lemma PopKeeps(c: Code, d: Code, v: View, r: nat, b: bool)
    requires Tame(c) && Under(c, d, v, r) && r < |c.jumps| && IsExit(c, r, b)
    requires v.cut <= Source(c, r)
    ensures Home(c, r) < |v.pos| && Under(c, Relabel(d, LabelOf(c.jumps[r], b), [v.pos[Home(c, r)]]), v, r)
  {
    hide Tame, Ready, Grown, Exact, OnlyFrom, Pending, Landed, Slack, Relabel;
    GrownOf(c, d, v, r);
    EdgeOf(c, r, b);
    LaterJump(c, r, r);
    var l, h := LabelOf(c.jumps[r], b), Home(c, r);
    PosGap(c, d, v, h, |c.instrs|);
    var e := Relabel(d, l, [v.pos[h]]);
    RelabelKeepsReady(d, l, [v.pos[h]]);
    GrownRelabelled(c, d, v, l, [v.pos[h]]);
    forall q, a | r <= q < |c.jumps| ensures Pending(c, e, v, q, a) {
      PendingOf(c, d, v, r, q, a);
      PendingPopped(c, d, v, r, b, q, a);
    }
    forall q, a | 0 <= q < r ensures Landed(c, e, v, q, a) {
      LandedOf(c, d, v, r, q, a);
      LandedRelabelled(c, d, v, q, a, l, [v.pos[h]]);
    }
  }

  /** Either a copy lies ahead of the jump, within reach, or every copy lies behind it and popping leaves the destination. */
  lemma ExitCases(c: Code, d: Code, v: View, r: nat, b: bool)
    requires Tame(c) && Under(c, d, v, r) && r < |c.jumps| && IsExit(c, r, b)
    ensures Grown(c, d, v) && Positions(d, LabelOf(c.jumps[r], b)) != []
    ensures Source(c, r) < Home(c, r) < |c.instrs|
    ensures var ps, i := Positions(d, LabelOf(c.jumps[r], b)), v.pos[Source(c, r)];
            if v.cut <= Source(c, r) then DropUpTo(ps, i) == [v.pos[Home(c, r)]]
            else DropUpTo(ps, i) == ps && i < ps[0] <= i + 255 && ps[0] + 1 == v.pos[v.cut] && HasCopy(c, d, v, Home(c, r))
  {
    hide Tame, TameEdge, Ready, Under, Grown;
    PendingOf(c, d, v, r, r, b);
    LaterJump(c, r, r);
    var ps, i, h := Positions(d, LabelOf(c.jumps[r], b)), Source(c, r), Home(c, r);
    PosGap(c, d, v, i, h);
    if |ps| == 2 {
      assert ps[1..] == [v.pos[h]];
      if v.cut <= i {
        PosGap(c, d, v, v.cut, i);
        assert DropUpTo(ps, v.pos[i]) == DropUpTo(ps[1..], v.pos[i]);
      } else {
        PosGap(c, d, v, i, v.cut - 1);
      }
    }
  }

  lemma NotAnOriginal(c: Code, d: Code, v: View, t: Index)
    requires Grown(c, d, v) && HasCopy(c, d, v, t)
    ensures v.pos[v.cut] - 1 !in v.pos
  {
    forall x | 0 <= x < |v.pos| ensures v.pos[x] != v.pos[v.cut] - 1 {
      if x < v.cut - 1 {
        assert v.pos[x] < v.pos[v.cut - 1];
      } else if x > v.cut {
        assert v.pos[x] > v.pos[v.cut];
      }
    }
  }

  /** A branch that leaves, when a copy lies ahead. */
  lemma ResolveToCopy(c: Code, d: Code, v: View, r: nat, b: bool) returns (skip: int)
    requires Tame(c) && Under(c, d, v, r) && r < |c.jumps| && IsExit(c, r, b)
    requires v.cut > Source(c, r)
    ensures Resolves(d, r, LabelOf(c.jumps[r], b), d, skip) && Lands(c, d, v, r, b, skip)
  {
    hide Tame, Ready, Under, Resolves, Grown;
    JumpNow(c, d, v, r);
    GrownOf(c, d, v, r);
    EdgeOf(c, r, b);
    ExitCases(c, d, v, r, b);
    var l := LabelOf(c.jumps[r], b);
    RelabelSame(d, l);
    NotAnOriginal(c, d, v, Home(c, r));
    ResolvesNear(d, r, l);
    skip := d.labels[l][0] - d.jumps[r].index - 1;
  }

  /** A branch that leaves, when every copy lies behind and its return is within reach. */
  lemma ResolveToReturn(c: Code, d: Code, v: View, r: nat, b: bool) returns (e: Code, skip: int)
    requires Tame(c) && Under(c, d, v, r) && r < |c.jumps| && IsExit(c, r, b)
    requires v.cut <= Source(c, r) && Home(c, r) - Source(c, r) <= 256
    ensures Resolves(d, r, LabelOf(c.jumps[r], b), e, skip) && Lands(c, e, v, r, b, skip)
    ensures Under(c, e, v, r) && e.instrs == d.instrs
  {
    hide Tame, Ready, Under, Resolves, Grown;
    JumpNow(c, d, v, r);
    GrownOf(c, d, v, r);
    EdgeOf(c, r, b);
    ExitCases(c, d, v, r, b);
    var l, h := LabelOf(c.jumps[r], b), Home(c, r);
    PosGap(c, d, v, Source(c, r), h);
    PopKeeps(c, d, v, r, b);
    e := Relabel(d, l, [v.pos[h]]);
    GrownOf(c, e, v, r);
    ResolvesNear(d, r, l);
    skip := v.pos[h] - d.jumps[r].index - 1;
  }

  // ---- an insertion ----

  /** Far branches: the return lies out of reach and no copy lies ahead. */
  predicate Far(c: Code, v: View, r: nat, b: bool)
    requires r < |c.jumps|
  {
    IsExit(c, r, b) && v.cut <= Source(c, r) && Home(c, r) - Source(c, r) > 256
  }

  /** The last jump within 254 instructions of jump `r`: loads never stand side by side. */
  function FarPoint(c: Code, r: nat): Index
    requires r < |c.jumps|
  {
    var i := Source(c, r) + 254;
    if i < |c.instrs| && c.instrs[i].JumpIf? then i else i - 1
  }

  function Shifted(v: View, x: Index): View {
    View(seq(|v.pos|, y requires 0 <= y < |v.pos| => if y > x then v.pos[y] + 1 else v.pos[y]), x + 1)
  }

  lemma FarPointIsJump(c: Code, r: nat)
    requires Tame(c) && r < |c.jumps| && Home(c, r) - Source(c, r) > 256
    ensures var x := FarPoint(c, r);
            && Source(c, r) + 253 <= x <= Source(c, r) + 254 && x < Home(c, r) < |c.instrs|
            && c.instrs[x].JumpIf? && NextRet(c.instrs, x) == Home(c, r)
            && (x < Source(c, r) + 254 ==> !c.instrs[Source(c, r) + 254].JumpIf?)
  {
    LaterJump(c, r, r);
    NextRetInside(c.instrs, Source(c, r), FarPoint(c, r));
    assert !c.instrs[Source(c, r) + 253].RetConstant?;
    assert !c.instrs[Source(c, r) + 254].RetConstant?;
    assert !c.instrs[Source(c, r) + 253].Jump?;
    assert !c.instrs[Source(c, r) + 254].Jump?;
  }

  lemma JumpOf(c: Code, x: Index) returns (k: nat)
    requires Tame(c) && x < |c.instrs| && c.instrs[x].JumpIf?
    ensures k < |c.jumps| && Source(c, k) == x
  {
    k :| 0 <= k < |c.jumps| && c.jumps[k].index == x;
  }

  lemma RefOf(c: Code, d: Code, v: View, q: nat)
    requires Grown(c, d, v) && q < |c.jumps|
    ensures Source(c, q) < |c.instrs| == |v.pos| - 1 && |d.jumps| == |c.jumps| && v.cut < |c.instrs|
    ensures d.jumps[q] == c.jumps[q].(index := v.pos[Source(c, q)])
  {}

  lemma InsertionPlace(c: Code, d: Code, v: View, r: nat, b: bool)
    requires Tame(c) && Under(c, d, v, r) && r < |c.jumps| && Far(c, v, r, b)
    ensures |d.jumps| == |c.jumps| && FarPoint(c, r) < |v.pos|
    ensures InsertionPoint(d.jumps, d.jumps[r]).index == v.pos[FarPoint(c, r)]
  {
    hide Tame, Under, Grown, Ready, Ascending, InsertionPoint, NextRet;
    FarPointIsJump(c, r);
    GrownOf(c, d, v, r);
    var i, x := Source(c, r), FarPoint(c, r);
    PosGap(c, d, v, i, x);
    RefOf(c, d, v, r);
    InsertionPointRange(d, d.jumps[r]);
    var k := JumpOf(c, x);
    RefOf(c, d, v, k);
    var p := InsertionPoint(d.jumps, d.jumps[r]);
    assert v.pos[x] <= p.index by {
      ReadyAscends(d);
      InsertionPointAtLeast(d.jumps, d.jumps[r], k);
    }
    var m :| 0 <= m < |d.jumps| && d.jumps[m] == p;
    RefOf(c, d, v, m);
    EdgeOf(c, m, true);
    var y := Source(c, m);
    if y < x {
      PosGap(c, d, v, y, x);
    } else if y > x {
      PosGap(c, d, v, x, y);
      PosGap(c, d, v, i, y);
    }
  }

  lemma ReadyAscends(d: Code)
    requires Ready(d)
    ensures Ascending(d.jumps)
  {}

  lemma ApartShifted(v: View, x: Index)
    requires Apart(v.pos)
    ensures Apart(Shifted(v, x).pos)
  {
    var w := Shifted(v, x);
    forall y, z | 0 <= y < z < |w.pos| ensures w.pos[z] - w.pos[y] >= z - y {
      assert v.pos[z] - v.pos[y] >= z - y;
    }
  }

  lemma SpreadShifted(instrs: seq<Instr>, v: View, n: nat, x: Index)
    requires Spread(instrs, v, n) && v.cut <= x < |instrs| - 1 && instrs[x].JumpIf?
    ensures Spread(instrs, Shifted(v, x), n + 1)
  {
    hide Apart;
    ApartShifted(v, x);
  }

  lemma ShiftedIsShift(instrs: seq<Instr>, v: View, n: nat, x: Index, y: Index)
    requires Spread(instrs, v, n) && x < |instrs| && y < |v.pos|
    ensures Shifted(v, x).pos[y] == ShiftIndex(v.pos[y], v.pos[x] + 1)
  {}

  lemma GrownInserted(c: Code, d: Code, v: View, x: Index, inst: Instr, l: Label)
    requires Grown(c, d, v) && v.cut <= x < |c.instrs| - 1 && c.instrs[x].JumpIf? && l in d.labels
    ensures v.pos[x] + 1 <= |d.instrs| && Grown(c, InsertFor(d, v.pos[x] + 1, inst, l), Shifted(v, x))
  {
    hide Spread, Shifted, Insert, Erase;
    SpreadSize(c.instrs, v, |d.instrs|);
    var at := v.pos[x] + 1;
    assert at <= |d.instrs|;
    var e, w := InsertFor(d, at, inst, l), Shifted(v, x);
    SpreadShifted(c.instrs, v, |d.instrs|, x);
    InsertAt(d, at, inst, v.pos[x]);
    SpreadSize(c.instrs, w, |d.instrs| + 1);
    forall y | 0 <= y < |c.instrs| ensures w.pos[y] < |e.instrs| && Erase(e.instrs[w.pos[y]]) == Erase(c.instrs[y]) {
      InsertAt(d, at, inst, v.pos[y]);
      ShiftedIsShift(c.instrs, v, |d.instrs|, x, y);
      assert v.pos[y] < |d.instrs| && Erase(d.instrs[v.pos[y]]) == Erase(c.instrs[y]);
    }
    forall q | 0 <= q < |c.jumps|
      ensures |e.jumps| == |c.jumps| && c.jumps[q].index < |c.instrs|
      ensures e.jumps[q] == c.jumps[q].(index := w.pos[c.jumps[q].index])
    {
      InsertRef(d, at, inst, q);
      ShiftedIsShift(c.instrs, v, |d.instrs|, x, c.jumps[q].index);
    }
    InsertLength(d, at, inst);
  }

  lemma SpreadSize(instrs: seq<Instr>, v: View, n: nat)
    requires Spread(instrs, v, n)
    ensures |v.pos| == |instrs| + 1
  {}

  lemma InsertLength(d: Code, at: Index, inst: Instr)
    requires at <= |d.instrs|
    ensures |Insert(d, at, inst).jumps| == |d.jumps| && |Insert(d, at, inst).instrs| == |d.instrs| + 1
  {}

  lemma InsertRef(d: Code, at: Index, inst: Instr, q: nat)
    requires at <= |d.instrs| && q < |d.jumps|
    ensures |Insert(d, at, inst).jumps| == |d.jumps| && Insert(d, at, inst).jumps[q] == ShiftRef(d.jumps[q], at)
  {}

  lemma TableKept(c: Code, d: Code, at: Index, inst: Instr, l: Label)
    requires Exact(d) && OnlyFrom(c, d) && at <= |d.instrs| && l in d.labels && inst.RetConstant? && inst in c.instrs
    ensures Exact(InsertFor(d, at, inst, l)) && OnlyFrom(c, InsertFor(d, at, inst, l))
  {
    var e := InsertFor(d, at, inst, l);
    forall p | 0 <= p < |e.instrs| && e.instrs[p].JumpIf?
      ensures exists q :: 0 <= q < |e.jumps| && e.jumps[q].index == p
    {
      var o := if p < at then p else p - 1;
      assert e.instrs[p] == d.instrs[o];
      var q :| 0 <= q < |d.jumps| && d.jumps[q].index == o;
      assert e.jumps[q].index == p;
    }
    forall p | 0 <= p < |e.instrs| ensures e.instrs[p].JumpIf? || e.instrs[p] in c.instrs {
      if p != at {
        assert e.instrs[p] == d.instrs[if p < at then p else p - 1];
      }
    }
  }

  /** No skip goes stale: what jumps up to `r` go to lies before the point of insertion. */
  lemma StaysBehind(c: Code, d: Code, v: View, r: nat, b: bool, q: nat, a: bool, skip: nat)
    requires Tame(c) && Grown(c, d, v) && r < |c.jumps| && Far(c, v, r, b)
    requires q < r || (q == r && a != b)
    requires Lands(c, d, v, q, a, skip) && skip <= 255
    ensures FarPoint(c, r) < |v.pos| && v.pos[Source(c, q)] + 1 + skip <= v.pos[FarPoint(c, r)]
  {
    hide Tame, Grown;
    FarPointIsJump(c, r);
    LaterJump(c, q, r);
    EdgeOf(c, q, a);
    EdgeOf(c, r, b);
    var i, s, t, x := Source(c, r), Source(c, q), Dest(c, q, a), FarPoint(c, r);
    PosGap(c, d, v, s, i);
    PosGap(c, d, v, i, x);
    PosGap(c, d, v, v.cut, i);
    PosGap(c, d, v, i, Home(c, r));
    if v.pos[s] + 1 + skip == v.pos[t] {
      if t <= i {
        PosGap(c, d, v, t, i);
      } else if IsExit(c, q, a) {
        assert t == Home(c, r);
      } else {
        assert t <= i + 253;
        PosGap(c, d, v, t, x);
      }
    }
  }

  lemma LandsInserted(c: Code, d: Code, v: View, x: Index, inst: Instr, l: Label, q: nat, a: bool, skip: nat)
    requires Lands(c, d, v, q, a, skip) && |v.pos| == |c.instrs| + 1
    requires v.cut <= x < |c.instrs| - 1 && l in d.labels && v.pos[x] + 1 <= |d.instrs|
    requires Grown(c, InsertFor(d, v.pos[x] + 1, inst, l), Shifted(v, x))
    requires q < |c.jumps| && Source(c, q) < |c.instrs| && v.pos[Source(c, q)] + 1 + skip <= v.pos[x]
    ensures Lands(c, InsertFor(d, v.pos[x] + 1, inst, l), Shifted(v, x), q, a, skip)
  {
    hide Grown;
    var e, w := InsertFor(d, v.pos[x] + 1, inst, l), Shifted(v, x);
    var s, t, p := Source(c, q), Dest(c, q, a), v.pos[Source(c, q)] + 1 + skip;
    if s <= x {
      PosGap(c, d, v, s, x);
    } else {
      PosGap(c, d, v, x, s);
    }
    assert w.pos[s] == v.pos[s];
    if p == v.pos[t] {
      if t > x {
        PosGap(c, d, v, x, t);
      }
    } else {
      PosGap(c, d, v, v.cut, x);
      PosGap(c, d, v, x, x + 1);
      assert e.instrs[p] == d.instrs[p];
      forall y | 0 <= y < |w.pos| ensures w.pos[y] != p {
        if y > x {
          PosGap(c, d, v, x, y);
        } else {
          assert v.pos[y] in v.pos;
        }
      }
    }
  }

  /** The tables after a far branch: the copies behind are dropped and a copy of the return is placed at the far point. */
  function WithCopy(c: Code, d: Code, v: View, r: nat, b: bool): Code
    requires r < |c.jumps| && Home(c, r) < |c.instrs| && FarPoint(c, r) < |v.pos| && Home(c, r) < |v.pos|
    requires v.pos[FarPoint(c, r)] + 1 <= |d.instrs|
  {
    var l := LabelOf(c.jumps[r], b);
    InsertFor(Relabel(d, l, [v.pos[Home(c, r)]]), v.pos[FarPoint(c, r)] + 1, c.instrs[Home(c, r)], l)
  }

  /** What holds of the far branch `r` just before the insertion. */
  ghost predicate AtInsertion(c: Code, d: Code, v: View, r: nat, b: bool) {
    && Tame(c) && r < |c.jumps| && Far(c, v, r, b) && Grown(c, d, v) && |v.pos| == |c.instrs| + 1
    && FarPoint(c, r) < Home(c, r) < |c.instrs| && v.pos[FarPoint(c, r)] + 1 <= |d.instrs|
    && Positions(d, LabelOf(c.jumps[r], b)) == [v.pos[Home(c, r)]]
    && Relabel(d, LabelOf(c.jumps[r], b), [v.pos[Home(c, r)]]) == d
  }

  lemma PositionsInserted(d: Code, at: Index, inst: Instr, l: Label, m: Label)
    requires at <= |d.instrs| && l in d.labels
    ensures Positions(InsertFor(d, at, inst, l), m)
            == (if m == l then [at] else []) + ShiftAll(Positions(d, m), at)
  {}

  lemma ShiftedPlace(c: Code, d: Code, v: View, x: Index, y: Index)
    requires Grown(c, d, v) && x < |c.instrs| && y <= |c.instrs|
    ensures |v.pos| == |c.instrs| + 1
    ensures Shifted(v, x).pos[y] == ShiftIndex(v.pos[y], v.pos[x] + 1)
    ensures y > x ==> v.pos[y] > v.pos[x]
  {
    ShiftedIsShift(c.instrs, v, |d.instrs|, x, y);
  }

  lemma PendingSame(c: Code, d: Code, v: View, r: nat, b: bool, q: nat, a: bool)
    requires AtInsertion(c, d, v, r, b) && r <= q < |c.jumps| && TameEdge(c, q, a)
    requires LabelOf(c.jumps[q], a) == LabelOf(c.jumps[r], b)
    requires Grown(c, WithCopy(c, d, v, r, b), Shifted(v, FarPoint(c, r)))
    ensures Pending(c, WithCopy(c, d, v, r, b), Shifted(v, FarPoint(c, r)), q, a)
  {
    hide Tame, Grown, TameEdge, Relabel, Insert;
    EdgeOf(c, r, b);
    SameLabelLeaves(c, r, b, q, a);
    FarPointIsJump(c, r);
    LaterJump(c, r, q);
    var x, h, i := FarPoint(c, r), Home(c, r), Source(c, r);
    var l, at := LabelOf(c.jumps[r], b), v.pos[x] + 1;
    var e, w := WithCopy(c, d, v, r, b), Shifted(v, x);
    PositionsInserted(d, at, c.instrs[h], l, l);
    ShiftedPlace(c, d, v, x, h);
    ShiftedPlace(c, d, v, x, x + 1);
    ShiftedPlace(c, d, v, x, Source(c, q));
    PosGap(c, d, v, x, x + 1);
    PosGap(c, d, v, i, x);
    PosGap(c, d, v, i, Source(c, q));
    assert Positions(e, l) == [at, w.pos[h]];
    CopyPlaced(d, at, c.instrs[h], l);
    assert HasCopy(c, e, w, h);
  }

  lemma CopyPlaced(d: Code, at: Index, inst: Instr, l: Label)
    requires at <= |d.instrs| && l in d.labels
    ensures var e := InsertFor(d, at, inst, l); at < |e.instrs| && e.instrs[at] == inst
  {}

  lemma PendingOther(c: Code, d: Code, v: View, r: nat, b: bool, q: nat, a: bool)
    requires AtInsertion(c, d, v, r, b) && r <= q < |c.jumps| && Pending(c, d, v, q, a)
    requires LabelOf(c.jumps[q], a) != LabelOf(c.jumps[r], b)
    requires Grown(c, WithCopy(c, d, v, r, b), Shifted(v, FarPoint(c, r)))
    ensures Pending(c, WithCopy(c, d, v, r, b), Shifted(v, FarPoint(c, r)), q, a)
  {
    hide Tame, Grown, Relabel, Insert, InsertFor;
    EdgeOf(c, r, b);
    FarPointIsJump(c, r);
    LaterJump(c, r, q);
    var x, h, t := FarPoint(c, r), Home(c, r), Dest(c, q, a);
    var l, at := LabelOf(c.jumps[r], b), v.pos[x] + 1;
    var e, w := WithCopy(c, d, v, r, b), Shifted(v, x);
    PositionsInserted(d, at, c.instrs[h], l, LabelOf(c.jumps[q], a));
    ShiftedPlace(c, d, v, x, t);
    if IsExit(c, q, a) {
      OneLabelPerReturn(c, r, b, q, a);
      if v.cut > 0 {
        NextRetMonotone(c.instrs, v.cut - 1, Source(c, r));
      }
    }
    assert Positions(e, LabelOf(c.jumps[q], a)) == [w.pos[t]];
  }

  lemma OneLabelPerReturn(c: Code, q: nat, b: bool, p: nat, a: bool)
    requires Tame(c) && q < |c.jumps| && p < |c.jumps|
    ensures OneExitLabel(c, q, b, p, a) && TameEdge(c, q, b) && TameEdge(c, p, a)
  {
    hide TameEdge, OneExitLabel;
  }

  lemma SlackInserted(c: Code, d: Code, v: View, r: nat, b: bool, q: nat, a: bool)
    requires AtInsertion(c, d, v, r, b) && q < |c.jumps| && Slack(c, v, q, a)
    ensures Slack(c, Shifted(v, FarPoint(c, r)), q, a)
  {
    hide Tame, Grown, Relabel, Insert, InsertFor;
    FarPointIsJump(c, r);
    EdgeOf(c, r, b);
    var x, i, s, t := FarPoint(c, r), Source(c, r), Source(c, q), Dest(c, q, a);
    ShiftedPlace(c, d, v, x, s);
    ShiftedPlace(c, d, v, x, t);
    if !IsExit(c, q, a) && s <= x < t {
      PosGap(c, d, v, s, t);
      if q < r {
        LaterJump(c, q, r);
      } else {
        LaterJump(c, r, q);
      }
    }
  }

  lemma InsertionKeeps(c: Code, d: Code, v: View, r: nat, b: bool)
    requires Under(c, d, v, r) && AtInsertion(c, d, v, r, b)
    ensures Under(c, WithCopy(c, d, v, r, b), Shifted(v, FarPoint(c, r)), r)
  {
    hide Tame, Ready, Grown, Exact, OnlyFrom, Pending, Landed, Slack, TameEdge;
    GrownOf(c, d, v, r);
    FarPointIsJump(c, r);
    var x, h, l := FarPoint(c, r), Home(c, r), LabelOf(c.jumps[r], b);
    var at := v.pos[x] + 1;
    var e, w := WithCopy(c, d, v, r, b), Shifted(v, x);
    GrownInserted(c, d, v, x, c.instrs[h], l);
    TableKept(c, d, at, c.instrs[h], l);
    InsertForKeepsReady(d, at, c.instrs[h], l);
    forall q, a | r <= q < |c.jumps| ensures Pending(c, e, w, q, a) {
      PendingOf(c, d, v, r, q, a);
      EdgeOf(c, q, a);
      if LabelOf(c.jumps[q], a) == l {
        PendingSame(c, d, v, r, b, q, a);
      } else {
        PendingOther(c, d, v, r, b, q, a);
      }
    }
    forall q, a | 0 <= q < r ensures Landed(c, e, w, q, a) {
      LandedOf(c, d, v, r, q, a);
      LandedInserted(c, d, v, r, b, q, a);
    }
    forall q, a | 0 <= q < |c.jumps| ensures Slack(c, w, q, a) {
      SlackOf(c, d, v, r, q, a);
      SlackInserted(c, d, v, r, b, q, a);
    }
  }

  lemma LandedInserted(c: Code, d: Code, v: View, r: nat, b: bool, q: nat, a: bool)
    requires AtInsertion(c, d, v, r, b) && q < r && Landed(c, d, v, q, a)
    requires Grown(c, WithCopy(c, d, v, r, b), Shifted(v, FarPoint(c, r)))
    ensures Landed(c, WithCopy(c, d, v, r, b), Shifted(v, FarPoint(c, r)), q, a)
  {
    hide Tame, Grown, Relabel, Insert, InsertFor, Lands;
    FarPointIsJump(c, r);
    LaterJump(c, q, r);
    var x, h, s := FarPoint(c, r), Home(c, r), Source(c, q);
    var l, at := LabelOf(c.jumps[r], b), v.pos[x] + 1;
    PosGap(c, d, v, s, |c.instrs|);
    var skip := StoredSkip(d.instrs[v.pos[s]], a);
    StaysBehind(c, d, v, r, b, q, a, skip);
    LandsInserted(c, d, v, x, c.instrs[h], l, q, a, skip);
    ShiftedPlace(c, d, v, x, s);
    BeforeInsertion(d, at, c.instrs[h], l, v.pos[s]);
  }

  lemma BeforeInsertion(d: Code, at: Index, inst: Instr, l: Label, p: Index)
    requires p < at <= |d.instrs| && l in d.labels
    ensures var e := InsertFor(d, at, inst, l); p < |e.instrs| && e.instrs[p] == d.instrs[p]
  {}

  /** A far branch: a copy of its return is placed within reach. */
  lemma ResolveFar(c: Code, d: Code, v: View, r: nat, b: bool, other: nat) returns (e: Code, w: View, skip: int)
    requires Tame(c) && Under(c, d, v, r) && r < |c.jumps| && Far(c, v, r, b)
    ensures Resolves(d, r, LabelOf(c.jumps[r], b), e, skip)
    ensures Under(c, e, w, r) && Lands(c, e, w, r, b, skip)
    ensures w == Shifted(v, FarPoint(c, r)) && |e.instrs| == |d.instrs| + 1
    ensures other <= 255 && Lands(c, d, v, r, !b, other) ==> Lands(c, e, w, r, !b, other)
  {
    hide Tame, Ready, Under, Grown, TameEdge, Resolves, HasCopy, NextRet;
    JumpNow(c, d, v, r);
    GrownOf(c, d, v, r);
    EdgeOf(c, r, b);
    ExitCases(c, d, v, r, b);
    FarPointIsJump(c, r);
    var j, l, h, x := d.jumps[r], LabelOf(c.jumps[r], b), Home(c, r), FarPoint(c, r);
    PosGap(c, d, v, Source(c, r), x);
    PosGap(c, d, v, x, h);
    PosGap(c, d, v, Source(c, r), h);
    PopKeeps(c, d, v, r, b);
    var p := Relabel(d, l, [v.pos[h]]);
    GrownOf(c, p, v, r);
    assert AtInsertion(c, p, v, r, b);
    InsertionKeeps(c, p, v, r, b);
    e, w := WithCopy(c, p, v, r, b), Shifted(v, x);
    assert e == WithCopy(c, d, v, r, b);
    skip := v.pos[x] - v.pos[Source(c, r)];
    ResolvesByCopy(c, d, v, r, b);
    GrownOf(c, e, w, r);
    CopyLands(c, d, v, r, b);
    if other <= 255 && Lands(c, d, v, r, !b, other) {
      StaysBehind(c, d, v, r, b, r, !b, other);
      LandsInserted(c, p, v, x, c.instrs[h], l, r, !b, other);
    }
  }

  lemma ResolvesByCopy(c: Code, d: Code, v: View, r: nat, b: bool)
    requires Tame(c) && Under(c, d, v, r) && r < |c.jumps| && Far(c, v, r, b)
    requires Home(c, r) < |c.instrs| && |v.pos| == |c.instrs| + 1 && FarPoint(c, r) < |v.pos| && Source(c, r) < |v.pos|
    requires v.pos[FarPoint(c, r)] + 1 <= |d.instrs|
    ensures Resolves(d, r, LabelOf(c.jumps[r], b), WithCopy(c, d, v, r, b), v.pos[FarPoint(c, r)] - v.pos[Source(c, r)])
  {
    hide Tame, Ready, Under, Grown, TameEdge, Resolve, Reach, InsertFor, HasCopy;
    JumpNow(c, d, v, r);
    GrownOf(c, d, v, r);
    ExitCases(c, d, v, r, b);
    FarPointIsJump(c, r);
    var j, l, h := d.jumps[r], LabelOf(c.jumps[r], b), Home(c, r);
    PosGap(c, d, v, Source(c, r), h);
    PopKeeps(c, d, v, r, b);
    var p := Relabel(d, l, [v.pos[h]]);
    GrownOf(c, p, v, r);
    InsertionPlace(c, p, v, r, b);
    PlaceOf(c, p, v, h);
    ResolveCases(d, j, l);
    ReachCases(p, j, l);
  }

  lemma CopyLands(c: Code, d: Code, v: View, r: nat, b: bool)
    requires Tame(c) && r < |c.jumps| && Far(c, v, r, b) && Grown(c, d, v)
    requires |v.pos| == |c.instrs| + 1 && FarPoint(c, r) < Home(c, r) < |c.instrs| && v.pos[FarPoint(c, r)] + 1 <= |d.instrs|
    requires Grown(c, WithCopy(c, d, v, r, b), Shifted(v, FarPoint(c, r)))
    ensures Source(c, r) < |v.pos| && v.pos[FarPoint(c, r)] - v.pos[Source(c, r)] >= 0
    ensures Lands(c, WithCopy(c, d, v, r, b), Shifted(v, FarPoint(c, r)), r, b, v.pos[FarPoint(c, r)] - v.pos[Source(c, r)])
  {
    hide Tame, Grown, Insert;
    EdgeOf(c, r, b);
    FarPointIsJump(c, r);
    var x, h, l := FarPoint(c, r), Home(c, r), LabelOf(c.jumps[r], b);
    var e, w := WithCopy(c, d, v, r, b), Shifted(v, x);
    var at := v.pos[x] + 1;
    PosGap(c, d, v, Source(c, r), x);
    PosGap(c, d, v, x, x + 1);
    ShiftedPlace(c, d, v, x, Source(c, r));
    ShiftedPlace(c, d, v, x, x + 1);
    CopyPlaced(Relabel(d, l, [v.pos[h]]), at, c.instrs[h], l);
    forall y | 0 <= y < |w.pos| ensures w.pos[y] != at {
      ShiftedPlace(c, d, v, x, y);
    }
  }

  /** An original return is still where the view says. */
  lemma PlaceOf(c: Code, d: Code, v: View, x: Index)
    requires Grown(c, d, v) && x < |c.instrs| && !c.instrs[x].JumpIf?
    ensures |v.pos| == |c.instrs| + 1 && v.pos[x] < |d.instrs| && d.instrs[v.pos[x]] == c.instrs[x]
  {
    assert Erase(d.instrs[v.pos[x]]) == Erase(c.instrs[x]);
  }

  // ---- one jump, and all of them ----

  /** The cut after jump `r`, given the cut before it. */
  function NextCut(c: Code, cut: nat, r: nat): nat
    requires r < |c.jumps|
  {
    if Leaps(c, cut, r) then FarPoint(c, r) + 1 else cut
  }

  /** Jump `r` needs a copy of its own. */
  predicate Leaps(c: Code, cut: nat, r: nat)
    requires r < |c.jumps|
  {
    Far(c, View([], cut), r, true) || Far(c, View([], cut), r, false)
  }

  /** The cut after the first `r` jumps. */
  function CutAfter(c: Code, r: nat): nat
    requires r <= |c.jumps|
  {
    if r == 0 then 0 else NextCut(c, CutAfter(c, r - 1), r - 1)
  }

  /** The number of copies made for the first `r` jumps. */
  function CopiesAfter(c: Code, r: nat): nat
    requires r <= |c.jumps|
  {
    if r == 0 then 0 else CopiesAfter(c, r - 1) + (if Leaps(c, CutAfter(c, r - 1), r - 1) then 1 else 0)
  }

  /** Whatever the branch, resolution succeeds and the jump's other branch lands as before. */
  lemma ResolveBranch(c: Code, d: Code, v: View, r: nat, b: bool, other: nat) returns (e: Code, w: View, skip: int)
    requires Tame(c) && Under(c, d, v, r) && r < |c.jumps|
    ensures Resolves(d, r, LabelOf(c.jumps[r], b), e, skip)
    ensures Under(c, e, w, r) && Lands(c, e, w, r, b, skip)
    ensures other <= 255 && Lands(c, d, v, r, !b, other) ==> Lands(c, e, w, r, !b, other)
    ensures w.cut == if Far(c, v, r, b) then FarPoint(c, r) + 1 else v.cut
    ensures |e.instrs| == |d.instrs| + if Far(c, v, r, b) then 1 else 0
  {
    hide Tame, Ready, Under, Grown, TameEdge, Resolves, Lands;
    w := v;
    if !IsExit(c, r, b) {
      e := d;
      skip := ResolveShort(c, d, v, r, b);
    } else if v.cut > Source(c, r) {
      e := d;
      skip := ResolveToCopy(c, d, v, r, b);
    } else if Home(c, r) - Source(c, r) > 256 {
      e, w, skip := ResolveFar(c, d, v, r, b, other);
    } else {
      e, skip := ResolveToReturn(c, d, v, r, b);
      OtherLands(c, d, e, v, r, b, other);
    }
  }

  lemma OtherLands(c: Code, d: Code, e: Code, v: View, r: nat, b: bool, skip: nat)
    requires Under(c, e, v, r) && e.instrs == d.instrs
    ensures Lands(c, d, v, r, !b, skip) ==> Lands(c, e, v, r, !b, skip)
  {
    hide Grown, TameEdge, Under;
    GrownOf(c, e, v, r);
  }

  /** The two branches of a tame jump never end on the same instruction. */
  lemma LandsApart(c: Code, d: Code, v: View, r: nat, t: nat, f: nat)
    requires Lands(c, d, v, r, true, t) && Lands(c, d, v, r, false, f)
    ensures t != f
  {
    hide Grown;
    var x, y := Dest(c, r, true), Dest(c, r, false);
    if x < y {
      PosGap(c, d, v, x, y);
    } else {
      PosGap(c, d, v, y, x);
    }
  }

  /** Writing the two skips back completes the jump. */
  lemma StoreKeeps(c: Code, d: Code, v: View, r: nat, t: uint8, f: uint8)
    requires Tame(c) && Under(c, d, v, r) && r < |c.jumps|
    requires Lands(c, d, v, r, true, t) && Lands(c, d, v, r, false, f)
    ensures r < |d.jumps| && IsJump(d, d.jumps[r].index)
    ensures Under(c, Store(d, d.jumps[r].index, t, f), v, r + 1)
  {
    hide Tame, Ready, Grown, Exact, OnlyFrom, Pending, Landed, Slack, TameEdge;
    GrownOf(c, d, v, r);
    JumpNow(c, d, v, r);
    var i := d.jumps[r].index;
    var e := Store(d, i, t, f);
    StoreKeepsReady(d, i, t, f);
    GrownStored(c, d, v, i, t, f);
    forall q, a | r + 1 <= q < |c.jumps| ensures Pending(c, e, v, q, a) {
      PendingOf(c, d, v, r, q, a);
      PendingStored(c, d, v, q, a, r, t, f);
    }
    forall q, a | 0 <= q < r + 1 ensures Landed(c, e, v, q, a) {
      if q < r {
        LandedOf(c, d, v, r, q, a);
      }
      LandedStored(c, d, v, q, a, r, t, f);
    }
    forall q, a | 0 <= q < |c.jumps| ensures Slack(c, v, q, a) {
      SlackOf(c, d, v, r, q, a);
    }
  }

  lemma GrownStored(c: Code, d: Code, v: View, i: Index, t: uint8, f: uint8)
    requires Grown(c, d, v) && IsJump(d, i) && Exact(d) && OnlyFrom(c, d)
    ensures Grown(c, Store(d, i, t, f), v) && Exact(Store(d, i, t, f)) && OnlyFrom(c, Store(d, i, t, f))
  {
    hide Spread;
    SpreadSize(c.instrs, v, |d.instrs|);
    var e := Store(d, i, t, f);
    forall x | 0 <= x < |c.instrs| ensures v.pos[x] < |e.instrs| && Erase(e.instrs[v.pos[x]]) == Erase(c.instrs[x]) {
      assert Erase(e.instrs[v.pos[x]]) == Erase(d.instrs[v.pos[x]]);
    }
    forall p | 0 <= p < |e.instrs| && e.instrs[p].JumpIf?
      ensures exists q :: 0 <= q < |e.jumps| && e.jumps[q].index == p
    {
      assert d.instrs[p].JumpIf?;
    }
  }

  lemma PendingStored(c: Code, d: Code, v: View, q: nat, a: bool, r: nat, t: uint8, f: uint8)
    requires Pending(c, d, v, q, a) && r < |d.jumps| && IsJump(d, d.jumps[r].index)
    requires Grown(c, Store(d, d.jumps[r].index, t, f), v)
    ensures Pending(c, Store(d, d.jumps[r].index, t, f), v, q, a)
  {
    hide TameEdge, Grown, HasCopy;
    if HasCopy(c, d, v, Dest(c, q, a)) {
      CopyStored(c, d, v, Dest(c, q, a), d.jumps[r].index, t, f);
    }
  }

  lemma CopyStored(c: Code, d: Code, v: View, x: Index, i: Index, t: uint8, f: uint8)
    requires HasCopy(c, d, v, x) && IsJump(d, i) && Grown(c, Store(d, i, t, f), v)
    ensures HasCopy(c, Store(d, i, t, f), v, x)
  {
    hide Grown;
    NextRetIsRet(c, v, x);
    PosGap(c, d, v, v.cut - 1, v.cut);
    PosGap(c, Store(d, i, t, f), v, v.cut, |c.instrs|);
    assert d.instrs[v.pos[v.cut - 1] + 1].RetConstant?;
  }

  lemma NextRetIsRet(c: Code, v: View, x: Index)
    requires 0 < v.cut <= x < |c.instrs| && NextRet(c.instrs, v.cut - 1) == x
    ensures c.instrs[x].RetConstant?
  {
  }

  lemma LandedStored(c: Code, d: Code, v: View, q: nat, a: bool, r: nat, t: uint8, f: uint8)
    requires Tame(c) && q <= r < |c.jumps| && r < |d.jumps| && IsJump(d, d.jumps[r].index)
    requires q < r ==> Landed(c, d, v, q, a)
    requires Lands(c, d, v, r, true, t) && Lands(c, d, v, r, false, f)
    requires Grown(c, Store(d, d.jumps[r].index, t, f), v)
    ensures Landed(c, Store(d, d.jumps[r].index, t, f), v, q, a)
  {
    hide Tame, Grown, TameEdge, NextRet, Home;
    RefOf(c, d, v, r);
    LaterJump(c, q, r);
    var e := Store(d, d.jumps[r].index, t, f);
    RefOf(c, e, v, q);
    PosGap(c, d, v, Source(c, q), Source(c, r));
    PosGap(c, e, v, Source(c, q), |c.instrs|);
    LaterJump(c, r, r);
    EdgeOf(c, q, a);
    var skip := if q == r then (if a then t else f) else StoredSkip(d.instrs[v.pos[Source(c, q)]], a);
    LandsStored(c, d, v, q, a, d.jumps[r].index, t, f, skip);
    hide Lands;
  }

  lemma LandsStored(c: Code, d: Code, v: View, q: nat, a: bool, i: Index, t: uint8, f: uint8, skip: uint8)
    requires Tame(c) && IsJump(d, i) && Lands(c, d, v, q, a, skip) && Grown(c, Store(d, i, t, f), v)
    ensures Lands(c, Store(d, i, t, f), v, q, a, skip)
  {
    hide Tame, TameEdge, NextRet, Home;
    if IsExit(c, q, a) {
      ExitIsReturn(c, q, a);
      PosGap(c, d, v, v.cut, |c.instrs|);
    }
  }

  lemma ExitIsReturn(c: Code, q: nat, a: bool)
    requires Tame(c) && q < |c.jumps| && IsExit(c, q, a)
    ensures Dest(c, q, a) < |c.instrs| && c.instrs[Dest(c, q, a)].RetConstant?
  {
    LaterJump(c, q, q);
  }
}
