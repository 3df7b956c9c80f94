/** The classic-BPF accumulator machine, restricted to the instructions a system-call filter uses,
    and the 64-byte record it inspects. */
module Bpf {
  import opened Results
  import opened Words

  datatype Test =
    | Equal | NotEqual | GreaterThan | LessThan | GreaterOrEqual | LessOrEqual | BitsSet | BitsNotSet

  datatype Instr =
    | LoadAbsolute(off: uint32, size: nat)
    | JumpIf(test: Test, val: uint32, skipTrue: uint8, skipFalse: uint8)
    | Jump(skip: uint32)
    | RetConstant(ret: uint32)

  predicate Passes(test: Test, acc: uint32, val: uint32) {
    match test
    case Equal => acc == val
    case NotEqual => acc != val
    case GreaterThan => acc > val
    case LessThan => acc < val
    case GreaterOrEqual => acc >= val
    case LessOrEqual => acc <= val
    case BitsSet => SharesBit(acc, val)
    case BitsNotSet => !SharesBit(acc, val)
  }

  datatype Env = Env(data: seq<uint8>, order: Order)

  /** The word a load brings into the accumulator; only whole 32-bit words inside the record can be loaded. */
  function Fetch(env: Env, off: uint32, size: nat): Option<uint32> {
    if size == 4 && off + 4 <= |env.data| then Some(Word(env.data[off..off + 4], env.order)) else None
  }

  datatype Outcome = Verdict(value: uint32) | Fault

  /** The run of `prog` from its first instruction. Skips are relative, so a program is any suffix of itself. */
  function Run(prog: seq<Instr>, acc: uint32, env: Env): Outcome
    decreases |prog|
  {
    if prog == [] then Fault
    else
      match prog[0]
      case RetConstant(v) => Verdict(v)
      case LoadAbsolute(off, size) =>
        (match Fetch(env, off, size)
         case None => Fault
         case Some(w) => Run(prog[1..], w, env))
      case Jump(skip) => if 1 + skip > |prog| then Fault else Run(prog[1 + skip..], acc, env)
      case JumpIf(test, val, skipTrue, skipFalse) =>
        var skip := if Passes(test, acc, val) then skipTrue else skipFalse;
        if 1 + skip > |prog| then Fault else Run(prog[1 + skip..], acc, env)
  }

  /** How many instructions a run executes: every one goes forward, so at most as many as the program has. */
  function Steps(prog: seq<Instr>, acc: uint32, env: Env): (n: nat)
    ensures n <= |prog|
    decreases |prog|
  {
    if prog == [] then 0
    else
      match prog[0]
      case RetConstant(_) => 1
      case LoadAbsolute(off, size) =>
        (match Fetch(env, off, size)
         case None => 1
         case Some(w) => 1 + Steps(prog[1..], w, env))
      case Jump(skip) => if 1 + skip > |prog| then 1 else 1 + Steps(prog[1 + skip..], acc, env)
      case JumpIf(test, val, skipTrue, skipFalse) =>
        var skip := if Passes(test, acc, val) then skipTrue else skipFalse;
        if 1 + skip > |prog| then 1 else 1 + Steps(prog[1 + skip..], acc, env)
  }

  datatype Machine = Going(prog: seq<Instr>, acc: uint32) | Ended(outcome: Outcome)

  /** What executing one instruction leads to. */
  function Step(prog: seq<Instr>, acc: uint32, env: Env): Machine
    requires prog != []
  {
    match prog[0]
    case RetConstant(v) => Ended(Verdict(v))
    case LoadAbsolute(off, size) =>
      (match Fetch(env, off, size)
       case None => Ended(Fault)
       case Some(w) => Going(prog[1..], w))
    case Jump(skip) => if 1 + skip > |prog| then Ended(Fault) else Going(prog[1 + skip..], acc)
    case JumpIf(test, val, skipTrue, skipFalse) =>
      var skip := if Passes(test, acc, val) then skipTrue else skipFalse;
      if 1 + skip > |prog| then Ended(Fault) else Going(prog[1 + skip..], acc)
  }

  /** The run cut off after `n` instructions: nothing if it is not over by then. */
  function RunFor(prog: seq<Instr>, acc: uint32, env: Env, n: nat): Option<Outcome> {
    if prog == [] then Some(Fault)
    else if n == 0 then None
    else
      match Step(prog, acc, env)
      case Ended(o) => Some(o)
      case Going(rest, a) => RunFor(rest, a, env, n - 1)
  }

  /** A run is over after exactly `Steps` instructions, and its outcome does not depend on a later limit. */
  lemma {:induction false} StepLimit(prog: seq<Instr>, acc: uint32, env: Env, n: nat)
    ensures RunFor(prog, acc, env, n)
            == if n < Steps(prog, acc, env) then None else Some(Run(prog, acc, env))
  {
    hide Fetch, Passes;
    if prog != [] && n > 0 {
      var m := Step(prog, acc, env);
      if m.Going? {
        StepLimit(m.prog, m.acc, env, n - 1);
      }
    }
  }

  // ---- the record ----

  const ARGUMENT_OFFSET := 16

  datatype RawRecord = Record(nr: uint32, arch: uint32, ip: uint64, args: seq<uint64>)

  type SeccompData = r: RawRecord | |r.args| == 6 witness Record(0, 0, 0, [0, 0, 0, 0, 0, 0])

  function ArgBytes(args: seq<uint64>, o: Order): (b: seq<uint8>)
    ensures |b| == 8 * |args|
  {
    if args == [] then [] else Bytes(args[0], 8, o) + ArgBytes(args[1..], o)
  }

  /** The record as the kernel lays it out in memory. */
  function Serialise(d: SeccompData, o: Order): (b: seq<uint8>)
    ensures |b| == 64
  {
    Bytes(d.nr, 4, o) + Bytes(d.arch, 4, o) + Bytes(d.ip, 8, o) + ArgBytes(d.args, o)
  }

  function EnvOf(d: SeccompData, o: Order): Env { Env(Serialise(d, o), o) }

  lemma {:induction false} ArgSlice(args: seq<uint64>, o: Order, k: nat)
    requires k < |args|
    ensures ArgBytes(args, o)[8 * k..8 * k + 8] == Bytes(args[k], 8, o)
  {
    if k == 0 {
      assert ArgBytes(args, o)[..8] == Bytes(args[0], 8, o);
    } else {
      ArgSlice(args[1..], o, k - 1);
      var b := ArgBytes(args[1..], o);
      assert ArgBytes(args, o)[8 * k..8 * k + 8] == b[8 * (k - 1)..8 * (k - 1) + 8];
    }
  }

  /** The system-call number is at offset 0 and the architecture at offset 4. */
  lemma LoadHeader(d: SeccompData, o: Order)
    ensures Fetch(EnvOf(d, o), 0, 4) == Some(d.nr)
    ensures Fetch(EnvOf(d, o), 4, 4) == Some(d.arch)
  {
    WordOfBytes(d.nr, o);
    WordOfBytes(d.arch, o);
    assert Serialise(d, o)[0..4] == Bytes(d.nr, 4, o);
    assert Serialise(d, o)[4..8] == Bytes(d.arch, 4, o);
  }

  function HiOffset(arg: uint32, o: Order): uint32 {
    (ARGUMENT_OFFSET + 8 * arg + (if o.LittleEndian? then 4 else 0)) % TWO_TO_32
  }

  function LoOffset(arg: uint32, o: Order): uint32 {
    (ARGUMENT_OFFSET + 8 * arg + (if o.BigEndian? then 4 else 0)) % TWO_TO_32
  }

  /** The eight bytes of an argument. */
  lemma ArgumentBytes(d: SeccompData, o: Order, arg: nat)
    requires arg <= 5
    ensures Serialise(d, o)[16 + 8 * arg..][..8] == Bytes(d.args[arg], 8, o)
  {
    hide Bytes;
    var b := Serialise(d, o);
    ArgSlice(d.args, o, arg);
    assert b[16..] == ArgBytes(d.args, o);
    assert b[16 + 8 * arg..][..8] == b[16..][8 * arg..8 * arg + 8];
  }

  /** The word at the lower (`k == 0`) or upper (`k == 4`) half of an argument's eight bytes. */
  lemma LoadHalf(d: SeccompData, o: Order, arg: nat, k: nat)
    requires arg <= 5 && (k == 0 || k == 4)
    ensures Fetch(EnvOf(d, o), 16 + 8 * arg + k, 4)
            == Some(if o.BigEndian? <==> k == 0 then Hi(d.args[arg]) else Lo(d.args[arg]))
  {
    hide Serialise, Word, Bytes, Hi, Lo;
    var v, b, at := d.args[arg], Serialise(d, o), 16 + 8 * arg;
    ArgumentBytes(d, o, arg);
    HalvesOfBytes(v, o);
    assert b[at + k..at + k + 4] == b[at..][..8][k..k + 4];
    var w := Bytes(v, 8, o);
    assert |w| == 8 && w[0..4] == w[..4] && w[4..8] == w[4..];
    WordOfBytes(if o.BigEndian? <==> k == 0 then Hi(v) else Lo(v), o);
  }

  /** For a valid argument number the 32-bit offset arithmetic does not wrap, and both words are aligned and inside. */
  lemma ArgumentOffsets(arg: uint32, o: Order)
    requires arg <= 5
    ensures HiOffset(arg, o) == 16 + 8 * arg + (if o.LittleEndian? then 4 else 0)
    ensures LoOffset(arg, o) == 16 + 8 * arg + (if o.LittleEndian? then 0 else 4)
    ensures HiOffset(arg, o) % 4 == 0 && HiOffset(arg, o) + 4 <= 64
    ensures LoOffset(arg, o) % 4 == 0 && LoOffset(arg, o) + 4 <= 64
  {
    assert 16 + 8 * arg == 4 * (4 + 2 * arg) && 20 + 8 * arg == 4 * (5 + 2 * arg);
  }

  /** In either byte order the two offsets name the two halves of the argument. */
  lemma LoadArgument(d: SeccompData, o: Order, arg: uint32)
    requires arg <= 5
    ensures Fetch(EnvOf(d, o), HiOffset(arg, o), 4) == Some(Hi(d.args[arg]))
    ensures Fetch(EnvOf(d, o), LoOffset(arg, o), 4) == Some(Lo(d.args[arg]))
  {
    hide Fetch, EnvOf, Hi, Lo;
    ArgumentOffsets(arg, o);
    LoadHalf(d, o, arg, 0);
    LoadHalf(d, o, arg, 4);
  }
}
