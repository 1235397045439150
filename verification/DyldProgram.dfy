/** Programs of dyld opcodes, their bytes, and what a decoder must make of them. */
module DyldProgram {
  import opened Bytes
  import opened Wrappers
  import opened Leb
  import opened Utf8
  import opened DyldStream

  type Imm = i: nat | i < 16

  datatype Op =
    | Done
    | SetType(imm: Imm)
    | SetSegment(segment: Imm, offset: u64)
    | AddAddr(v: u64)
    | AddAddrScaled(imm: Imm)
    | RebaseTimes(imm: Imm)
    | RebaseUlebTimes(times: u64)
    | RebaseAddAddr(v: u64)
    | RebaseSkipping(times: u64, skip: u64)
    | Ordinal(imm: Imm)
    | OrdinalUleb(v: u64)
    | Special(imm: Imm)
    | SetSymbol(flags: Imm, name: seq<byte>)
    | SetAddend(addend: int)
    | DoBind(imm: Imm)
    | BindAddAddr(imm: Imm, v: u64)
    | BindScaled(imm: Imm)
    | BindSkipping(imm: Imm, times: u64, skip: u64)

  /** An opcode the stream kind has, with operands its bytes can carry. */
  predicate Valid(op: Op, kind: StreamKind) {
    match op
    case Done | SetSegment(_, _) | AddAddr(_) => true
    case SetType(imm) => imm == 1 || (imm == 0 && kind == Bind)
    case AddAddrScaled(_) | RebaseTimes(_) | RebaseUlebTimes(_) | RebaseAddAddr(_) | RebaseSkipping(_, _) => kind == Rebase
    case SetSymbol(_, name) => kind == Bind && IsText(name) && 0 !in name
    case SetAddend(addend) => kind == Bind && IsI64(addend)
    case _ => kind == Bind
  }

  predicate AllValid(ops: seq<Op>, kind: StreamKind) {
    forall op :: op in ops ==> Valid(op, kind)
  }

  function OpBytes(op: Op, kind: StreamKind): (bs: seq<byte>)
    ensures bs != []
  {
    match op
    case Done => [0x00]
    case SetType(imm) => [(if kind == Rebase then 0x10 else 0x50) + imm]
    case SetSegment(segment, offset) => [(if kind == Rebase then 0x20 else 0x70) + segment] + Uleb(offset)
    case AddAddr(v) => [if kind == Rebase then 0x30 else 0x80] + Uleb(v)
    case AddAddrScaled(imm) => [0x40 + imm]
    case RebaseTimes(imm) => [0x50 + imm]
    case RebaseUlebTimes(times) => [0x60] + Uleb(times)
    case RebaseAddAddr(v) => [0x70] + Uleb(v)
    case RebaseSkipping(times, skip) => [0x80] + (Uleb(times) + Uleb(skip))
    case Ordinal(imm) => [0x10 + imm]
    case OrdinalUleb(v) => [0x20] + Uleb(v)
    case Special(imm) => [0x30 + imm]
    case SetSymbol(flags, name) => [0x40 + flags] + (name + [0x00])
    case SetAddend(addend) => [0x60] + Sleb(addend)
    case DoBind(imm) => [0x90 + imm]
    case BindAddAddr(imm, v) => [0xA0 + imm] + Uleb(v)
    case BindScaled(imm) => [0xB0 + imm]
    case BindSkipping(imm, times, skip) => [0xC0 + imm] + (Uleb(times) + Uleb(skip))
  }

  function AllBytes(ops: seq<Op>, kind: StreamKind): seq<byte> {
    if ops == [] then [] else OpBytes(ops[0], kind) + AllBytes(ops[1..], kind)
  }

  // ── the simple machine ───────────────────────────────────────────────────

  /** The one opcode that emits a single entry and moves one pointer. */
  function One(kind: StreamKind): Op { if kind == Rebase then RebaseTimes(1) else DoBind(0) }

  /** The opcodes the simple machine has; all others unroll into these. */
  predicate Simple(op: Op, kind: StreamKind) {
    op == One(kind) || op.SetSegment? || op.AddAddr? || op.SetSymbol? || op.SetAddend? || op.Done?
  }

  function Times(ops: seq<Op>, n: nat): seq<Op> {
    if n == 0 then [] else ops + Times(ops, n - 1)
  }

  /** Run lengths and combined moves spelled out one entry at a time. */
  function Unroll(op: Op, kind: StreamKind): seq<Op> {
    match op
    case SetType(_) | Ordinal(_) | OrdinalUleb(_) | Special(_) => []
    case AddAddrScaled(imm) => [AddAddr(8 * imm)]
    case RebaseTimes(imm) => Times([One(kind)], imm)
    case RebaseUlebTimes(times) => Times([One(kind)], times)
    case DoBind(_) => [One(kind)]
    case RebaseAddAddr(v) => [One(kind), AddAddr(v)]
    case BindAddAddr(_, v) => [One(kind), AddAddr(v)]
    case BindScaled(imm) => [One(kind), AddAddr(8 * imm)]
    case RebaseSkipping(times, skip) => Times([One(kind), AddAddr(skip)], times)
    case BindSkipping(_, times, skip) => Times([One(kind), AddAddr(skip)], times)
    case _ => [op]
  }

  function UnrollAll(ops: seq<Op>, kind: StreamKind): seq<Op> {
    if ops == [] then [] else Unroll(ops[0], kind) + UnrollAll(ops[1..], kind)
  }

  function Exec(op: Op, st: State, kind: StreamKind, isLazy: bool): State {
    match op
    case Done =>
      if isLazy then State(st.regs.(segment := 0, cursor := 0, addend := 0), []) else st.(regs := st.regs.(done := true))
    case SetSegment(segment, offset) => st.(regs := st.regs.(segment := segment, cursor := offset))
    case AddAddr(v) => Moved(st, v)
    case SetSymbol(_, name) => st.(symbol := name)
    case SetAddend(addend) => st.(regs := st.regs.(addend := addend))
    case _ => Moved(Pushed(st, kind), 8)
  }

  function ExecAll(ops: seq<Op>, st: State, kind: StreamKind, isLazy: bool): State
    decreases |ops|
  {
    if ops == [] || st.regs.done then st else ExecAll(ops[1..], Exec(ops[0], st, kind, isLazy), kind, isLazy)
  }

  lemma {:induction false} ExecAppend(a: seq<Op>, b: seq<Op>, st: State, kind: StreamKind, isLazy: bool)
    ensures ExecAll(a + b, st, kind, isLazy) == ExecAll(b, ExecAll(a, st, kind, isLazy), kind, isLazy)
    decreases |a|
  {
    if a == [] {
      assert a + b == b;
    } else if !st.regs.done {
      assert (a + b)[1..] == a[1..] + b;
      ExecAppend(a[1..], b, Exec(a[0], st, kind, isLazy), kind, isLazy);
    }
  }

  lemma ExecOne(op: Op, st: State, kind: StreamKind, isLazy: bool)
    requires !st.regs.done
    ensures ExecAll([op], st, kind, isLazy) == Exec(op, st, kind, isLazy)
  {
  }

  lemma ExecTwo(a: Op, b: Op, st: State, kind: StreamKind, isLazy: bool)
    requires !st.regs.done && a != Done
    ensures ExecAll([a, b], st, kind, isLazy) == Exec(b, Exec(a, st, kind, isLazy), kind, isLazy)
  {
    assert [a, b] == [a] + [b];
    ExecAppend([a], [b], st, kind, isLazy);
    ExecOne(a, st, kind, isLazy);
    ExecOne(b, Exec(a, st, kind, isLazy), kind, isLazy);
  }

  lemma EntryThenMove(v: u64, st: State, kind: StreamKind, isLazy: bool)
    requires !st.regs.done
    ensures ExecAll([One(kind), AddAddr(v)], st, kind, isLazy) == Moved(Pushed(st, kind), v + 8)
  {
    ExecTwo(One(kind), AddAddr(v), st, kind, isLazy);
    MovedTwice(Pushed(st, kind), 8, v);
  }

  lemma MovedTwice(st: State, a: nat, b: nat)
    ensures Moved(Moved(st, a), b) == Moved(st, b + a)
  {
  }

  /** A counted repeat is the unrolled body executed that many times. */
  lemma {:induction false} RepeatUnrolls(body: seq<Op>, n: nat, skip: u64, st: State, kind: StreamKind, isLazy: bool)
    requires !st.regs.done
    requires body == [One(kind), AddAddr(skip)] || (body == [One(kind)] && skip == 0)
    ensures ExecAll(Times(body, n), st, kind, isLazy) == Repeated(st, kind, n, skip)
    decreases n
  {
    if n > 0 {
      var next := Moved(Pushed(st, kind), skip + 8);
      ExecAppend(body, Times(body, n - 1), st, kind, isLazy);
      if |body| == 2 {
        EntryThenMove(skip, st, kind, isLazy);
      } else {
        ExecOne(One(kind), st, kind, isLazy);
      }
      assert ExecAll(body, st, kind, isLazy) == next;
      RepeatUnrolls(body, n - 1, skip, next, kind, isLazy);
    }
  }

  // ── the decoder runs the simple machine ──────────────────────────────────

  lemma UlebPart(v: u64, rest: seq<byte>)
    ensures ReadUleb(Uleb(v) + rest) == Success(Read(v, |Uleb(v)|)) && (Uleb(v) + rest)[|Uleb(v)|..] == rest
  {
    UlebRoundTrip(v, rest);
  }

  lemma SkippingBytes(times: u64, skip: u64, rest: seq<byte>, st: State, kind: StreamKind, isLazy: bool)
    requires !st.regs.done
    ensures Skipping(Uleb(times) + Uleb(skip) + rest, st, kind)
         == Next(ExecAll(Times([One(kind), AddAddr(skip)], times), st, kind, isLazy), rest)
  {
    assert Uleb(times) + Uleb(skip) + rest == Uleb(times) + (Uleb(skip) + rest);
    UlebPart(times, Uleb(skip) + rest);
    UlebPart(skip, rest);
    RepeatUnrolls([One(kind), AddAddr(skip)], times, skip, st, kind, isLazy);
  }

  lemma {:induction false} NulAfter(name: seq<byte>, rest: seq<byte>)
    requires 0 !in name
    ensures NulAt(name + [0] + rest) == |name|
  {
    if name != [] {
      assert (name + [0] + rest)[1..] == name[1..] + [0] + rest;
      NulAfter(name[1..], rest);
    }
  }

  lemma SymbolBytes(name: seq<byte>, rest: seq<byte>, st: State)
    requires IsText(name) && 0 !in name
    ensures SymbolStep(name + [0] + rest, st) == Next(st.(symbol := name), rest)
  {
    NulAfter(name, rest);
    LossyKeepsText(name);
    assert (name + [0] + rest)[..|name|] == name && (name + [0] + rest)[|name| + 1..] == rest;
  }

  /** The decoder's view of an opcode byte and its operands. */
  lemma Opcode(opcode: nat, imm: Imm, operands: seq<byte>, rest: seq<byte>, st: State, kind: StreamKind, isLazy: bool)
    requires 0 < opcode < 16
    ensures OpStep([0x10 * opcode + imm] + operands + rest, st, kind, isLazy)
         == if kind == Rebase then RebaseStep(opcode, imm, operands + rest, st) else BindStep(opcode, imm, operands + rest, st)
  {
    var t := [0x10 * opcode + imm] + operands + rest;
    assert t[1..] == operands + rest;
  }

  /** DO_..._TIMES_SKIPPING in either stream. */
  lemma SkippingOpcode(opcode: nat, imm: Imm, times: u64, skip: u64, rest: seq<byte>, st: State, kind: StreamKind, isLazy: bool)
    requires !st.regs.done && opcode == (if kind == Rebase then 8 else 12)
    ensures OpStep([0x10 * opcode + imm] + (Uleb(times) + Uleb(skip)) + rest, st, kind, isLazy)
         == Next(ExecAll(Times([One(kind), AddAddr(skip)], times), st, kind, isLazy), rest)
  {
    Opcode(opcode, imm, Uleb(times) + Uleb(skip), rest, st, kind, isLazy);
    SkippingBytes(times, skip, rest, st, kind, isLazy);
  }

  /** DO_..._ADD_ADDR in either stream. */
  lemma EntryMoveOpcode(opcode: nat, imm: Imm, v: u64, rest: seq<byte>, st: State, kind: StreamKind, isLazy: bool)
    requires !st.regs.done && opcode == (if kind == Rebase then 7 else 10)
    ensures OpStep([0x10 * opcode + imm] + Uleb(v) + rest, st, kind, isLazy)
         == Next(ExecAll([One(kind), AddAddr(v)], st, kind, isLazy), rest)
  {
    Opcode(opcode, imm, Uleb(v), rest, st, kind, isLazy);
    UlebPart(v, rest);
    EntryThenMove(v, st, kind, isLazy);
  }

  lemma RebaseImmBytes(op: Op, rest: seq<byte>, st: State, isLazy: bool)
    requires Valid(op, Rebase) && !st.regs.done && (op.SetType? || op.AddAddrScaled?)
    ensures OpStep(OpBytes(op, Rebase) + rest, st, Rebase, isLazy) == Next(ExecAll(Unroll(op, Rebase), st, Rebase, isLazy), rest)
  {
  }

  lemma RebaseMoveBytes(op: Op, rest: seq<byte>, st: State, isLazy: bool)
    requires !st.regs.done && (op.SetSegment? || op.AddAddr?)
    ensures OpStep(OpBytes(op, Rebase) + rest, st, Rebase, isLazy) == Next(ExecAll(Unroll(op, Rebase), st, Rebase, isLazy), rest)
  {
    ExecOne(op, st, Rebase, isLazy);
    if op.SetSegment? {
      Opcode(2, op.segment, Uleb(op.offset), rest, st, Rebase, isLazy);
      UlebPart(op.offset, rest);
    } else {
      Opcode(3, 0, Uleb(op.v), rest, st, Rebase, isLazy);
      UlebPart(op.v, rest);
    }
  }

  lemma RebaseCountBytes(op: Op, rest: seq<byte>, st: State, isLazy: bool)
    requires (op.RebaseTimes? || op.RebaseUlebTimes?) && !st.regs.done
    ensures OpStep(OpBytes(op, Rebase) + rest, st, Rebase, isLazy) == Next(ExecAll(Unroll(op, Rebase), st, Rebase, isLazy), rest)
  {
    if op.RebaseTimes? {
      Opcode(5, op.imm, [], rest, st, Rebase, isLazy);
      RepeatUnrolls([One(Rebase)], op.imm, 0, st, Rebase, isLazy);
    } else {
      Opcode(6, 0, Uleb(op.times), rest, st, Rebase, isLazy);
      UlebPart(op.times, rest);
      RepeatUnrolls([One(Rebase)], op.times, 0, st, Rebase, isLazy);
    }
  }

  lemma RebaseRunBytes(op: Op, rest: seq<byte>, st: State, isLazy: bool)
    requires (op.RebaseAddAddr? || op.RebaseSkipping?) && !st.regs.done
    ensures OpStep(OpBytes(op, Rebase) + rest, st, Rebase, isLazy) == Next(ExecAll(Unroll(op, Rebase), st, Rebase, isLazy), rest)
  {
    if op.RebaseAddAddr? {
      EntryMoveOpcode(7, 0, op.v, rest, st, Rebase, isLazy);
    } else {
      SkippingOpcode(8, 0, op.times, op.skip, rest, st, Rebase, isLazy);
    }
  }

  lemma BindMoveBytes(op: Op, rest: seq<byte>, st: State, isLazy: bool)
    requires Valid(op, Bind) && !st.regs.done
    requires !op.Done? && !op.SetSymbol? && !op.SetAddend? && !op.DoBind? && !op.BindAddAddr? && !op.BindScaled? && !op.BindSkipping?
    ensures OpStep(OpBytes(op, Bind) + rest, st, Bind, isLazy) == Next(ExecAll(Unroll(op, Bind), st, Bind, isLazy), rest)
  {
    match op {
      case SetType(imm) =>
        Opcode(5, imm, [], rest, st, Bind, isLazy);
      case Ordinal(imm) =>
        Opcode(1, imm, [], rest, st, Bind, isLazy);
      case Special(imm) =>
        Opcode(3, imm, [], rest, st, Bind, isLazy);
      case OrdinalUleb(v) =>
        Opcode(2, 0, Uleb(v), rest, st, Bind, isLazy);
        UlebPart(v, rest);
      case SetSegment(segment, v) =>
        Opcode(7, segment, Uleb(v), rest, st, Bind, isLazy);
        UlebPart(v, rest);
        ExecOne(op, st, Bind, isLazy);
      case AddAddr(v) =>
        Opcode(8, 0, Uleb(v), rest, st, Bind, isLazy);
        UlebPart(v, rest);
        ExecOne(op, st, Bind, isLazy);
    }
  }

  lemma BindTargetBytes(op: Op, rest: seq<byte>, st: State, isLazy: bool)
    requires Valid(op, Bind) && !st.regs.done
    requires op.SetSymbol? || op.SetAddend?
    ensures OpStep(OpBytes(op, Bind) + rest, st, Bind, isLazy) == Next(ExecAll(Unroll(op, Bind), st, Bind, isLazy), rest)
  {
    match op {
      case SetSymbol(flags, name) =>
        Opcode(4, flags, name + [0], rest, st, Bind, isLazy);
        SymbolBytes(name, rest, st);
        ExecOne(op, st, Bind, isLazy);
      case SetAddend(addend) =>
        Opcode(6, 0, Sleb(addend), rest, st, Bind, isLazy);
        SlebRoundTrip(addend, rest);
        assert (Sleb(addend) + rest)[|Sleb(addend)|..] == rest;
        ExecOne(op, st, Bind, isLazy);
    }
  }

  lemma BindEntryBytes(op: Op, rest: seq<byte>, st: State, isLazy: bool)
    requires (op.DoBind? || op.BindScaled?) && !st.regs.done
    ensures OpStep(OpBytes(op, Bind) + rest, st, Bind, isLazy) == Next(ExecAll(Unroll(op, Bind), st, Bind, isLazy), rest)
  {
    if op.DoBind? {
      Opcode(9, op.imm, [], rest, st, Bind, isLazy);
      ExecOne(One(Bind), st, Bind, isLazy);
    } else {
      Opcode(11, op.imm, [], rest, st, Bind, isLazy);
      EntryThenMove(8 * op.imm, st, Bind, isLazy);
    }
  }

  lemma BindRunBytes(op: Op, rest: seq<byte>, st: State, isLazy: bool)
    requires (op.BindAddAddr? || op.BindSkipping?) && !st.regs.done
    ensures OpStep(OpBytes(op, Bind) + rest, st, Bind, isLazy) == Next(ExecAll(Unroll(op, Bind), st, Bind, isLazy), rest)
  {
    if op.BindAddAddr? {
      EntryMoveOpcode(10, op.imm, op.v, rest, st, Bind, isLazy);
    } else {
      SkippingOpcode(12, op.imm, op.times, op.skip, rest, st, Bind, isLazy);
    }
  }

  /** One opcode's bytes take the decoder where the unrolled opcode takes the simple machine. */
  lemma OpMeansUnrolled(op: Op, rest: seq<byte>, st: State, kind: StreamKind, isLazy: bool)
    requires Valid(op, kind) && !st.regs.done
    ensures OpStep(OpBytes(op, kind) + rest, st, kind, isLazy) == Next(ExecAll(Unroll(op, kind), st, kind, isLazy), rest)
  {
    if op == Done {
      assert (OpBytes(op, kind) + rest)[1..] == rest;
      ExecOne(op, st, kind, isLazy);
    } else if kind == Rebase {
      if op.SetType? || op.AddAddrScaled? {
        RebaseImmBytes(op, rest, st, isLazy);
      } else if op.SetSegment? || op.AddAddr? {
        RebaseMoveBytes(op, rest, st, isLazy);
      } else if op.RebaseTimes? || op.RebaseUlebTimes? {
        RebaseCountBytes(op, rest, st, isLazy);
      } else {
        RebaseRunBytes(op, rest, st, isLazy);
      }
    } else if op.SetSymbol? || op.SetAddend? {
      BindTargetBytes(op, rest, st, isLazy);
    } else if op.DoBind? || op.BindScaled? {
      BindEntryBytes(op, rest, st, isLazy);
    } else if op.BindAddAddr? || op.BindSkipping? {
      BindRunBytes(op, rest, st, isLazy);
    } else {
      BindMoveBytes(op, rest, st, isLazy);
    }
  }

  function Finished(st: State): Outcome { Outcome(st.symbol, Success(st.regs.out)) }

  lemma RunFirst(bytes: seq<byte>, tail: seq<byte>, first: seq<Op>, others: seq<Op>, st: State, kind: StreamKind, isLazy: bool)
    requires bytes != [] && !st.regs.done
    requires OpStep(bytes + tail, st, kind, isLazy) == Next(ExecAll(first, st, kind, isLazy), tail)
    ensures Run(bytes + tail, st, kind, isLazy) == Run(tail, ExecAll(first, st, kind, isLazy), kind, isLazy)
    ensures ExecAll(first + others, st, kind, isLazy) == ExecAll(others, ExecAll(first, st, kind, isLazy), kind, isLazy)
  {
    ExecAppend(first, others, st, kind, isLazy);
  }

  /** The first opcode, taken off the bytes and off the program. */
  lemma ProgramFirst(ops: seq<Op>, rest: seq<byte>, st: State, kind: StreamKind, isLazy: bool)
    requires AllValid(ops, kind) && ops != [] && !st.regs.done
    ensures var next := ExecAll(Unroll(ops[0], kind), st, kind, isLazy);
            && Run(AllBytes(ops, kind) + rest, st, kind, isLazy) == Run(AllBytes(ops[1..], kind) + rest, next, kind, isLazy)
            && ExecAll(UnrollAll(ops, kind), st, kind, isLazy) == ExecAll(UnrollAll(ops[1..], kind), next, kind, isLazy)
  {
    var bytes, tail := OpBytes(ops[0], kind), AllBytes(ops[1..], kind) + rest;
    assert AllBytes(ops, kind) + rest == bytes + tail;
    OpMeansUnrolled(ops[0], tail, st, kind, isLazy);
    RunFirst(bytes, tail, Unroll(ops[0], kind), UnrollAll(ops[1..], kind), st, kind, isLazy);
  }

  /** Decoding a program's bytes runs its unrolled form; what follows a DONE that ends it is not read. */
  lemma {:induction false} DecodeRunsProgram(ops: seq<Op>, rest: seq<byte>, st: State, kind: StreamKind, isLazy: bool)
    requires AllValid(ops, kind)
    requires rest == [] || ExecAll(UnrollAll(ops, kind), st, kind, isLazy).regs.done
    ensures Run(AllBytes(ops, kind) + rest, st, kind, isLazy) == Finished(ExecAll(UnrollAll(ops, kind), st, kind, isLazy))
    decreases |ops|
  {
    if ops != [] && !st.regs.done {
      ProgramFirst(ops, rest, st, kind, isLazy);
      DecodeRunsProgram(ops[1..], rest, ExecAll(Unroll(ops[0], kind), st, kind, isLazy), kind, isLazy);
    }
  }

  lemma {:induction false} TimesValid(body: seq<Op>, n: nat, kind: StreamKind)
    requires AllValid(body, kind)
    ensures AllValid(Times(body, n), kind)
  {
    if n > 0 { TimesValid(body, n - 1, kind); }
  }

  lemma UnrollValid(op: Op, kind: StreamKind)
    requires Valid(op, kind)
    ensures AllValid(Unroll(op, kind), kind)
  {
    match op {
      case RebaseTimes(imm) => TimesValid([One(kind)], imm, kind);
      case RebaseUlebTimes(times) => TimesValid([One(kind)], times, kind);
      case RebaseSkipping(times, skip) => TimesValid([One(kind), AddAddr(skip)], times, kind);
      case BindSkipping(_, times, skip) => TimesValid([One(kind), AddAddr(skip)], times, kind);
      case _ =>
    }
  }

  lemma {:induction false} UnrollAllValid(ops: seq<Op>, kind: StreamKind)
    requires AllValid(ops, kind)
    ensures AllValid(UnrollAll(ops, kind), kind)
  {
    if ops != [] {
      UnrollValid(ops[0], kind);
      UnrollAllValid(ops[1..], kind);
    }
  }

  predicate AllSimple(ops: seq<Op>, kind: StreamKind) { forall op :: op in ops ==> Simple(op, kind) }

  lemma {:induction false} TimesSimple(body: seq<Op>, n: nat, kind: StreamKind)
    requires AllSimple(body, kind)
    ensures AllSimple(Times(body, n), kind)
  {
    if n > 0 { TimesSimple(body, n - 1, kind); }
  }

  lemma {:induction false} UnrollAllSimple(ops: seq<Op>, kind: StreamKind)
    requires AllValid(ops, kind)
    ensures AllSimple(UnrollAll(ops, kind), kind)
  {
    if ops != [] {
      match ops[0] {
        case RebaseTimes(imm) => TimesSimple([One(kind)], imm, kind);
        case RebaseUlebTimes(times) => TimesSimple([One(kind)], times, kind);
        case RebaseSkipping(times, skip) => TimesSimple([One(kind), AddAddr(skip)], times, kind);
        case BindSkipping(_, times, skip) => TimesSimple([One(kind), AddAddr(skip)], times, kind);
        case _ =>
      }
      UnrollAllSimple(ops[1..], kind);
    }
  }

  lemma SimpleUnrolls(op: Op, kind: StreamKind)
    requires Simple(op, kind)
    ensures Unroll(op, kind) == [op]
  {
  }

  lemma {:induction false} SimpleUnrollsToItself(ops: seq<Op>, kind: StreamKind)
    requires AllSimple(ops, kind)
    ensures UnrollAll(ops, kind) == ops
  {
    if ops != [] {
      SimpleUnrollsToItself(ops[1..], kind);
      SimpleUnrolls(ops[0], kind);
    }
  }

  /** A stream and its unrolled stream decode alike, from any leftover symbol. */
  lemma UnrolledStreamAgrees(ops: seq<Op>, symbol: seq<byte>, kind: StreamKind, isLazy: bool)
    requires AllValid(ops, kind)
    ensures Decode(AllBytes(ops, kind), symbol, kind, isLazy) == Decode(AllBytes(UnrollAll(ops, kind), kind), symbol, kind, isLazy)
    ensures AllSimple(UnrollAll(ops, kind), kind)
  {
    var simple, st := UnrollAll(ops, kind), State(RESET, symbol);
    DecodeRunsProgram(ops, [], st, kind, isLazy);
    UnrollAllValid(ops, kind);
    UnrollAllSimple(ops, kind);
    SimpleUnrollsToItself(simple, kind);
    DecodeRunsProgram(simple, [], st, kind, isLazy);
    assert AllBytes(ops, kind) + [] == AllBytes(ops, kind);
    assert AllBytes(simple, kind) + [] == AllBytes(simple, kind);
  }

  // ── records ──────────────────────────────────────────────────────────────

  /** An entry some caller may want encoded: its name is a Rust string. */
  predicate Encodable(e: Entry, kind: StreamKind) {
    e.segment < 16 && (kind == Bind <==> e.bind.Some?) && (e.bind.Some? ==> IsText(e.bind.value.name) && IsI64(e.bind.value.addend))
  }

  predicate AllEncodable(es: seq<Entry>, kind: StreamKind) {
    forall e :: e in es ==> Encodable(e, kind)
  }

  predicate NulFree(e: Entry) { e.bind.Some? ==> 0 !in e.bind.value.name }

  predicate AllNulFree(es: seq<Entry>) { forall e :: e in es ==> NulFree(e) }

  /** One self-contained record; a lazy stream flushes after each. */
  function RecordOps(e: Entry, kind: StreamKind, isLazy: bool): seq<Op>
    requires Encodable(e, kind)
  {
    (if kind == Bind then [SetSymbol(0, e.bind.value.name), SetAddend(e.bind.value.addend)] else [])
    + [SetSegment(e.segment, e.offset), One(kind)] + (if isLazy then [Done] else [])
  }

  function EncodeRecords(es: seq<Entry>, kind: StreamKind, isLazy: bool): seq<Op>
    requires AllEncodable(es, kind)
  {
    if es == [] then [] else RecordOps(es[0], kind, isLazy) + EncodeRecords(es[1..], kind, isLazy)
  }

  lemma RecordValid(e: Entry, kind: StreamKind, isLazy: bool)
    requires Encodable(e, kind) && NulFree(e)
    ensures AllValid(RecordOps(e, kind, isLazy), kind) && AllSimple(RecordOps(e, kind, isLazy), kind)
  {
  }

  lemma {:induction false} RecordsValid(es: seq<Entry>, kind: StreamKind, isLazy: bool)
    requires AllEncodable(es, kind) && AllNulFree(es)
    ensures AllValid(EncodeRecords(es, kind, isLazy), kind) && AllSimple(EncodeRecords(es, kind, isLazy), kind)
  {
    if es != [] {
      assert es[0] in es;
      RecordValid(es[0], kind, isLazy);
      RecordsValid(es[1..], kind, isLazy);
    }
  }

  lemma ExecPlace(e: Entry, st: State, kind: StreamKind, isLazy: bool)
    requires !st.regs.done && e.segment < 16
    ensures ExecAll([SetSegment(e.segment, e.offset), One(kind)], st, kind, isLazy)
         == Moved(Pushed(st.(regs := st.regs.(segment := e.segment, cursor := e.offset)), kind), 8)
  {
    ExecTwo(SetSegment(e.segment, e.offset), One(kind), st, kind, isLazy);
  }

  /** Executing one record appends exactly it, whatever the registers and the symbol held. */
  lemma RecordAppends(e: Entry, st: State, kind: StreamKind, isLazy: bool)
    requires Encodable(e, kind) && !st.regs.done
    ensures var next := ExecAll(RecordOps(e, kind, isLazy), st, kind, isLazy);
            !next.regs.done && next.regs.out == st.regs.out + [e]
  {
    var head := if kind == Bind then [SetSymbol(0, e.bind.value.name), SetAddend(e.bind.value.addend)] else [];
    var place := [SetSegment(e.segment, e.offset), One(kind)];
    var last := if isLazy then [Done] else [];
    ExecAppend(head + place, last, st, kind, isLazy);
    ExecAppend(head, place, st, kind, isLazy);
    if kind == Bind {
      ExecTwo(SetSymbol(0, e.bind.value.name), SetAddend(e.bind.value.addend), st, kind, isLazy);
    }
    var named := ExecAll(head, st, kind, isLazy);
    ExecPlace(e, named, kind, isLazy);
    if isLazy {
      ExecOne(Done, ExecAll(place, named, kind, isLazy), kind, isLazy);
    }
  }

  lemma {:induction false} RecordsAppend(es: seq<Entry>, st: State, kind: StreamKind, isLazy: bool)
    requires AllEncodable(es, kind) && !st.regs.done
    ensures var next := ExecAll(EncodeRecords(es, kind, isLazy), st, kind, isLazy);
            !next.regs.done && next.regs.out == st.regs.out + es
    decreases |es|
  {
    if es != [] {
      var first := RecordOps(es[0], kind, isLazy);
      RecordAppends(es[0], st, kind, isLazy);
      ExecAppend(first, EncodeRecords(es[1..], kind, isLazy), st, kind, isLazy);
      RecordsAppend(es[1..], ExecAll(first, st, kind, isLazy), kind, isLazy);
      assert st.regs.out + [es[0]] + es[1..] == st.regs.out + es;
    }
  }

  // ── no emitted name holds a NUL ──────────────────────────────────────────

  predicate Clean(st: State) { 0 !in st.symbol && AllNulFree(st.regs.out) }

  lemma {:induction false} RepeatedClean(st: State, kind: StreamKind, times: nat, skip: u64)
    requires Clean(st)
    ensures Clean(Repeated(st, kind, times, skip))
    decreases times
  {
    if times > 0 { RepeatedClean(Moved(Pushed(st, kind), skip + 8), kind, times - 1, skip); }
  }

  lemma SkippingClean(t: seq<byte>, st: State, kind: StreamKind)
    requires Clean(st)
    ensures var r := Skipping(t, st, kind); r.Next? ==> Clean(r.st)
  {
    var r := Skipping(t, st, kind);
    if r.Next? {
      var times := ReadUleb(t).value;
      RepeatedClean(st, kind, times.value, ReadUleb(t[times.used..]).value.value);
    }
  }

  lemma StepClean(t: seq<byte>, st: State, kind: StreamKind, isLazy: bool)
    requires t != [] && Clean(st)
    ensures var r := OpStep(t, st, kind, isLazy); r.Next? ==> Clean(r.st)
  {
    var opcode, imm, rest := t[0] / 0x10, t[0] % 0x10, t[1..];
    if kind == Rebase {
      if opcode == 5 { RepeatedClean(st, kind, imm, 0); }
      if opcode == 6 && ReadUleb(rest).Success? { RepeatedClean(st, kind, ReadUleb(rest).value.value, 0); }
      if opcode == 8 { SkippingClean(rest, st, kind); }
    } else {
      if opcode == 4 { LossyAddsNoNul(rest[..NulAt(rest)]); }
      if opcode == 12 { SkippingClean(rest, st, kind); }
    }
  }

  lemma {:induction false} RunClean(t: seq<byte>, st: State, kind: StreamKind, isLazy: bool)
    requires Clean(st)
    ensures var o := Run(t, st, kind, isLazy); 0 !in o.symbol && (o.result.Success? ==> AllNulFree(o.result.value))
    decreases |t|
  {
    if !st.regs.done && t != [] {
      StepClean(t, st, kind, isLazy);
      var r := OpStep(t, st, kind, isLazy);
      if r.Next? { RunClean(r.rest, r.st, kind, isLazy); }
    }
  }

  /**
   * The decoder undoes the encoder, on any leftover symbol, exactly when no name holds a NUL. No
   * decoded name ever holds one, so a name that does cannot come back.
   */
  lemma RecordsRoundTrip(es: seq<Entry>, symbol: seq<byte>, kind: StreamKind, isLazy: bool)
    requires AllEncodable(es, kind) && 0 !in symbol
    ensures Decode(AllBytes(EncodeRecords(es, kind, isLazy), kind), symbol, kind, isLazy).result == Success(es) <==> AllNulFree(es)
  {
    var ops, st := EncodeRecords(es, kind, isLazy), State(RESET, symbol);
    RunClean(AllBytes(ops, kind), st, kind, isLazy);
    if AllNulFree(es) {
      RecordsValid(es, kind, isLazy);
      RecordsAppend(es, st, kind, isLazy);
      assert st.regs.out + es == es;
      SimpleUnrollsToItself(ops, kind);
      DecodeRunsProgram(ops, [], st, kind, isLazy);
      assert AllBytes(ops, kind) + [] == AllBytes(ops, kind);
    }
  }

  /** In a plain stream a DONE may follow the records, and nothing after it is read. */
  lemma DoneEndsPlainStream(es: seq<Entry>, symbol: seq<byte>, kind: StreamKind, rest: seq<byte>)
    requires AllEncodable(es, kind) && AllNulFree(es)
    ensures Decode(AllBytes(EncodeRecords(es, kind, false) + [Done], kind) + rest, symbol, kind, false).result == Success(es)
  {
    var ops, st := EncodeRecords(es, kind, false), State(RESET, symbol);
    RecordsValid(es, kind, false);
    RecordsAppend(es, st, kind, false);
    assert st.regs.out + es == es;
    SimpleUnrollsToItself(ops + [Done], kind);
    ExecAppend(ops, [Done], st, kind, false);
    ExecOne(Done, ExecAll(ops, st, kind, false), kind, false);
    DecodeRunsProgram(ops + [Done], rest, st, kind, false);
  }

  /** A plain stream that binds before it names anything takes the name the previous call left. */
  lemma LeftoverSymbolBinds(symbol: seq<byte>)
    ensures Decode(AllBytes([DoBind(0)], Bind), symbol, Bind, false)
         == Outcome(symbol, Success([Entry(0, 0, Some(Target(symbol, 0)))]))
  {
    var ops, st := [DoBind(0)], State(RESET, symbol);
    DecodeRunsProgram(ops, [], st, Bind, false);
    assert AllBytes(ops, Bind) + [] == AllBytes(ops, Bind);
    SimpleUnrollsToItself(ops, Bind);
    ExecOne(DoBind(0), st, Bind, false);
    assert st.regs.out + [EntryAt(st, Bind)] == [EntryAt(st, Bind)];
  }

  /** A program's bytes run it, and then the bytes that follow. */
  lemma {:induction false} ProgramThenRun(ops: seq<Op>, rest: seq<byte>, st: State, kind: StreamKind, isLazy: bool)
    requires AllValid(ops, kind)
    ensures Run(AllBytes(ops, kind) + rest, st, kind, isLazy) == Run(rest, ExecAll(UnrollAll(ops, kind), st, kind, isLazy), kind, isLazy)
    decreases |ops|
  {
    if ops == [] {
      assert AllBytes(ops, kind) + rest == rest;
    } else if !st.regs.done {
      ProgramFirst(ops, rest, st, kind, isLazy);
      ProgramThenRun(ops[1..], rest, ExecAll(Unroll(ops[0], kind), st, kind, isLazy), kind, isLazy);
    }
  }

  /** SET_SYMBOL with these name bytes, whatever they are. */
  function Naming(imm: Imm, raw: seq<byte>): seq<byte> { [0x40 + imm] + (raw + [0]) }

  lemma NameStep(t: seq<byte>, raw: seq<byte>, rest: seq<byte>, st: State)
    requires 0 !in raw && t == raw + [0] + rest
    ensures |raw| <= |Lossy(raw)|
    ensures SymbolStep(t, st) == Next(st.(symbol := Lossy(raw)), Drop(rest, |Lossy(raw)| - |raw|))
  {
    LossyIsText(raw);
    NulAfter(raw, rest);
    assert t[..|raw|] == raw;
    DropPast(t, raw, rest, |Lossy(raw)|, |Lossy(raw)| + 1);
  }

  lemma DropPast(t: seq<byte>, raw: seq<byte>, rest: seq<byte>, n: nat, k: nat)
    requires |raw| <= n && k == n + 1 && t == raw + [0] + rest
    ensures Drop(t, k) == Drop(rest, n - |raw|)
  {
    if k <= |t| { assert t[k..] == rest[n - |raw|..]; }
  }

  lemma RunNext(t: seq<byte>, st: State, next: State, rest: seq<byte>, kind: StreamKind, isLazy: bool)
    requires t != [] && !st.regs.done && OpStep(t, st, kind, isLazy) == Next(next, rest)
    ensures Run(t, st, kind, isLazy) == Run(rest, next, kind, isLazy)
  {
  }

  /** Reading a name, good or bad: the repaired name is kept, and the reader skips as many bytes as that has. */
  lemma NamingRuns(imm: Imm, raw: seq<byte>, rest: seq<byte>, st: State, isLazy: bool)
    requires 0 !in raw && !st.regs.done
    ensures |raw| <= |Lossy(raw)|
    ensures Run(Naming(imm, raw) + rest, st, Bind, isLazy) == Run(Drop(rest, |Lossy(raw)| - |raw|), st.(symbol := Lossy(raw)), Bind, isLazy)
  {
    Opcode(4, imm, raw + [0], rest, st, Bind, isLazy);
    assert raw + [0] + rest == (raw + [0]) + rest;
    NameStep(raw + [0] + rest, raw, rest, st);
    RunNext(Naming(imm, raw) + rest, st, st.(symbol := Lossy(raw)), Drop(rest, |Lossy(raw)| - |raw|), Bind, isLazy);
  }

  /** The same of a repaired name, which loses nothing. */
  lemma RepairedRuns(imm: Imm, raw: seq<byte>, rest: seq<byte>, st: State, isLazy: bool)
    requires 0 !in raw && !st.regs.done
    ensures Run(Naming(imm, Lossy(raw)) + rest, st, Bind, isLazy) == Run(rest, st.(symbol := Lossy(raw)), Bind, isLazy)
  {
    LossyIsText(raw);
    LossyKeepsText(Lossy(raw));
    LossyAddsNoNul(raw);
    NamingRuns(imm, Lossy(raw), rest, st, isLazy);
    assert Drop(rest, 0) == rest;
  }

  ghost predicate RunAlike(a: seq<byte>, b: seq<byte>, st: State, isLazy: bool) { Run(a, st, Bind, isLazy) == Run(b, st, Bind, isLazy) }

  /** Both bind streams decode to the same outcome. */
  ghost predicate DecodeAlike(a: seq<byte>, b: seq<byte>, symbol: seq<byte>, isLazy: bool) { Decode(a, symbol, Bind, isLazy) == Decode(b, symbol, Bind, isLazy) }

  lemma RunsTogether(a: seq<byte>, b: seq<byte>, left: seq<byte>, st: State, next: State, isLazy: bool)
    requires Run(a, st, Bind, isLazy) == Run(left, next, Bind, isLazy) && Run(b, st, Bind, isLazy) == Run(left, next, Bind, isLazy)
    ensures RunAlike(a, b, st, isLazy)
  {
  }

  lemma DoneAlike(a: seq<byte>, b: seq<byte>, st: State, isLazy: bool)
    requires st.regs.done
    ensures RunAlike(a, b, st, isLazy)
  {
  }

  lemma SwallowsFrom(imm: Imm, raw: seq<byte>, rest: seq<byte>, left: seq<byte>, st: State, isLazy: bool)
    requires 0 !in raw && |raw| <= |Lossy(raw)| && left == Drop(rest, |Lossy(raw)| - |raw|)
    ensures RunAlike(Naming(imm, raw) + rest, Naming(imm, Lossy(raw)) + left, st, isLazy)
  {
    if st.regs.done {
      DoneAlike(Naming(imm, raw) + rest, Naming(imm, Lossy(raw)) + left, st, isLazy);
    } else {
      NamingRuns(imm, raw, rest, st, isLazy);
      RepairedRuns(imm, raw, left, st, isLazy);
      RunsTogether(Naming(imm, raw) + rest, Naming(imm, Lossy(raw)) + left, left, st, st.(symbol := Lossy(raw)), isLazy);
    }
  }

  /** Streams that run alike after a program decode alike with it in front. */
  lemma SameAfter(before: seq<Op>, a: seq<byte>, b: seq<byte>, symbol: seq<byte>, isLazy: bool)
    requires AllValid(before, Bind) && RunAlike(a, b, ExecAll(UnrollAll(before, Bind), State(RESET, symbol), Bind, isLazy), isLazy)
    ensures DecodeAlike(AllBytes(before, Bind) + a, AllBytes(before, Bind) + b, symbol, isLazy)
  {
    ProgramThenRun(before, a, State(RESET, symbol), Bind, isLazy);
    ProgramThenRun(before, b, State(RESET, symbol), Bind, isLazy);
  }

  /**
   * A name that is not UTF-8, anywhere in a bind stream: the stream decodes as the one with the repaired name and
   * without the bytes after it by which the repair is longer.
   */
  lemma LossyNameSwallows(before: seq<Op>, imm: Imm, raw: seq<byte>, rest: seq<byte>, symbol: seq<byte>, isLazy: bool)
    requires AllValid(before, Bind) && 0 !in raw
    ensures |raw| <= |Lossy(raw)|
    ensures DecodeAlike(AllBytes(before, Bind) + (Naming(imm, raw) + rest),
                        AllBytes(before, Bind) + (Naming(imm, Lossy(raw)) + Drop(rest, |Lossy(raw)| - |raw|)), symbol, isLazy)
  {
    LossyIsText(raw);
    var left := Drop(rest, |Lossy(raw)| - |raw|);
    SwallowsFrom(imm, raw, rest, left, ExecAll(UnrollAll(before, Bind), State(RESET, symbol), Bind, isLazy), isLazy);
    SameAfter(before, Naming(imm, raw) + rest, Naming(imm, Lossy(raw)) + left, symbol, isLazy);
  }

  /** The stream decodes as with the repaired name in place. */
  ghost predicate AsRepaired(imm: Imm, raw: seq<byte>, rest: seq<byte>, symbol: seq<byte>, isLazy: bool) {
    DecodeAlike(Naming(imm, raw) + rest, Naming(imm, Lossy(raw)) + rest, symbol, isLazy)
  }

  /** Every stream does so, whatever follows the name, exactly when the repair kept the length. */
  lemma LossyNameMovesReader(imm: Imm, raw: seq<byte>, symbol: seq<byte>, isLazy: bool)
    requires 0 !in raw
    ensures (forall rest :: AsRepaired(imm, raw, rest, symbol, isLazy)) <==> |Lossy(raw)| == |raw|
  {
    LossyIsText(raw);
    if |Lossy(raw)| == |raw| {
      forall rest ensures AsRepaired(imm, raw, rest, symbol, isLazy) {
        KeptInPlace(imm, raw, rest, symbol, isLazy);
      }
    } else {
      BindSwallowed(imm, raw, symbol, isLazy);
    }
  }

  lemma KeptInPlace(imm: Imm, raw: seq<byte>, rest: seq<byte>, symbol: seq<byte>, isLazy: bool)
    requires 0 !in raw && |Lossy(raw)| == |raw|
    ensures AsRepaired(imm, raw, rest, symbol, isLazy)
  {
    assert rest == Drop(rest, 0);
    SwallowsFrom(imm, raw, rest, rest, State(RESET, symbol), isLazy);
  }

  /** Otherwise a single DO_BIND after it is lost. */
  lemma BindSwallowed(imm: Imm, raw: seq<byte>, symbol: seq<byte>, isLazy: bool)
    requires 0 !in raw && |raw| < |Lossy(raw)|
    ensures !AsRepaired(imm, raw, [0x90], symbol, isLazy)
  {
    assert Drop([0x90], |Lossy(raw)| - |raw|) == [];
    SwallowedFrom(imm, raw, [0x90], State(RESET, symbol), isLazy);
  }

  lemma SwallowedFrom(imm: Imm, raw: seq<byte>, bind: seq<byte>, st: State, isLazy: bool)
    requires 0 !in raw && |raw| < |Lossy(raw)| && bind == [0x90] && Drop(bind, |Lossy(raw)| - |raw|) == [] && st.regs == RESET
    ensures !RunAlike(Naming(imm, raw) + bind, Naming(imm, Lossy(raw)) + bind, st, isLazy)
  {
    NamingRuns(imm, raw, bind, st, isLazy);
    RepairedRuns(imm, raw, bind, st, isLazy);
    OneBind(bind, State(RESET, Lossy(raw)), isLazy);
  }

  /** One DO_BIND adds an entry, no bytes add none. */
  lemma OneBind(bind: seq<byte>, st: State, isLazy: bool)
    requires st.regs == RESET && bind == [0x90]
    ensures !RunAlike(bind, [], st, isLazy)
  {
    RunNext(bind, st, Moved(Pushed(st, Bind), 8), [], Bind, isLazy);
  }

  /** Such a name can swallow the bind that follows it. */
  lemma LossyNameDropsBind()
    ensures Decode([0x40, 0xFF, 0x00, 0x90], [], Bind, false) == Outcome(REPLACEMENT, Success([]))
  {
  }
}
