/** UTF-8 as `String::from_utf8_lossy` reads it: every maximal bad prefix becomes U+FFFD. */
module Utf8 {
  import opened Bytes

  datatype Chunk = Chunk(width: nat, valid: bool)

  const REPLACEMENT: seq<byte> := [0xEF, 0xBF, 0xBD]

  function At(t: seq<byte>, i: nat): byte { if i < |t| then t[i] else 0 }

  predicate Continues(b: byte) { 0x80 <= b <= 0xBF }

  /** The second byte a lead byte of a three- or four-byte character admits. */
  predicate Second(lead: byte, b: byte) {
    if lead == 0xE0 then 0xA0 <= b <= 0xBF
    else if lead == 0xED then 0x80 <= b <= 0x9F
    else if lead == 0xF0 then 0x90 <= b <= 0xBF
    else if lead == 0xF4 then 0x80 <= b <= 0x8F
    else Continues(b)
  }

  /** The first character of `t`, or the bad prefix one replacement stands for. */
  function FirstChunk(t: seq<byte>): (c: Chunk)
    requires t != []
    ensures 1 <= c.width <= |t|
  {
    var lead := t[0];
    if lead < 0x80 then Chunk(1, true)
    else if 0xC2 <= lead <= 0xDF then
      if Continues(At(t, 1)) then Chunk(2, true) else Chunk(1, false)
    else if 0xE0 <= lead <= 0xEF then
      if !Second(lead, At(t, 1)) then Chunk(1, false)
      else if !Continues(At(t, 2)) then Chunk(2, false)
      else Chunk(3, true)
    else if 0xF0 <= lead <= 0xF4 then
      if !Second(lead, At(t, 1)) then Chunk(1, false)
      else if !Continues(At(t, 2)) then Chunk(2, false)
      else if !Continues(At(t, 3)) then Chunk(3, false)
      else Chunk(4, true)
    else Chunk(1, false)
  }

  predicate IsText(t: seq<byte>) {
    t == [] || (FirstChunk(t).valid && IsText(t[FirstChunk(t).width..]))
  }

  lemma {:induction false} AsciiIsText(s: seq<byte>)
    requires forall i :: 0 <= i < |s| ==> s[i] < 0x80
    ensures IsText(s)
  {
    if s != [] { AsciiIsText(s[1..]); }
  }

  function Lossy(t: seq<byte>): (s: seq<byte>) {
    if t == [] then []
    else
      var c := FirstChunk(t);
      (if c.valid then t[..c.width] else REPLACEMENT) + Lossy(t[c.width..])
  }

  /** Exactly valid text survives. */
  lemma {:induction false} LossyKeepsText(t: seq<byte>)
    ensures Lossy(t) == t <==> IsText(t)
  {
    if t != [] {
      var c := FirstChunk(t);
      LossyKeepsText(t[c.width..]);
      if c.valid {
        assert t[..c.width] + t[c.width..] == t;
        assert Lossy(t)[c.width..] == Lossy(t[c.width..]);
      } else {
        assert Lossy(t)[0] == 0xEF && Lossy(t)[1] == 0xBF && Lossy(t)[2] == 0xBD;
      }
    }
  }

  /** A first character or bad prefix is recognised by its own bytes. */
  lemma ChunkLocal(t: seq<byte>, more: seq<byte>)
    requires t != [] && FirstChunk(t).valid
    ensures var w := FirstChunk(t).width; FirstChunk(t[..w] + more) == FirstChunk(t)
  {
  }

  /** Repair always yields text, never shorter than what it repairs. */
  lemma {:induction false} LossyIsText(t: seq<byte>)
    ensures IsText(Lossy(t)) && |t| <= |Lossy(t)|
  {
    if t != [] {
      var c := FirstChunk(t);
      var rest := Lossy(t[c.width..]);
      LossyIsText(t[c.width..]);
      if c.valid {
        ChunkLocal(t, rest);
        assert Lossy(t)[c.width..] == rest;
      } else {
        assert Lossy(t) == REPLACEMENT + rest && FirstChunk(REPLACEMENT + rest) == Chunk(3, true);
        assert (REPLACEMENT + rest)[3..] == rest;
      }
    }
  }

  lemma {:induction false} LossyAddsNoNul(t: seq<byte>)
    ensures 0 !in t ==> 0 !in Lossy(t)
  {
    if t != [] {
      var c := FirstChunk(t);
      LossyAddsNoNul(t[c.width..]);
    }
  }
}

/** The rebase and bind opcode streams: `decode_stream` of macho.rs. */
module DyldStream {
  import opened Bytes
  import opened Wrappers
  import opened Leb
  import opened Utf8

  datatype Target = Target(name: seq<byte>, addend: int)

  datatype Entry = Entry(segment: nat, offset: u64, bind: Option<Target>)

  datatype StreamKind = Rebase | Bind

  datatype DecodeError = Truncated | UnsupportedFixup(kind: StreamKind, value: byte)

  /** The decoder's locals. */
  datatype Regs = Regs(segment: nat, cursor: u64, addend: int, done: bool, out: seq<Entry>)

  /** The locals and the thread's current symbol name. */
  datatype State = State(regs: Regs, symbol: seq<byte>)

  datatype Step = Next(st: State, rest: seq<byte>) | Stop(error: DecodeError)

  /** A finished call: the symbol it leaves behind, and its result. */
  datatype Outcome = Outcome(symbol: seq<byte>, result: Result<seq<Entry>, DecodeError>)

  const RESET: Regs := Regs(0, 0, 0, false, [])

  function EntryAt(st: State, kind: StreamKind): Entry {
    Entry(st.regs.segment, st.regs.cursor, if kind == Bind then Some(Target(st.symbol, st.regs.addend)) else None)
  }

  function Moved(st: State, step: nat): State {
    st.(regs := st.regs.(cursor := Wrap64(st.regs.cursor + step)))
  }

  function Pushed(st: State, kind: StreamKind): State {
    st.(regs := st.regs.(out := st.regs.out + [EntryAt(st, kind)]))
  }

  /** `times` entries, each followed by a move of one pointer and `skip` more bytes. */
  function Repeated(st: State, kind: StreamKind, times: nat, skip: u64): State
    decreases times
  {
    if times == 0 then st else Repeated(Moved(Pushed(st, kind), skip + 8), kind, times - 1, skip)
  }

  /** The index of the first NUL, or the length. */
  function NulAt(t: seq<byte>): (n: nat)
    ensures n <= |t|
    ensures forall i :: 0 <= i < n ==> t[i] != 0
    ensures n < |t| ==> t[n] == 0
  {
    if t == [] || t[0] == 0 then 0 else 1 + NulAt(t[1..])
  }

  function Drop(t: seq<byte>, n: nat): (r: seq<byte>)
    ensures |r| <= |t|
  {
    if n <= |t| then t[n..] else []
  }

  /** DONE: ends a plain stream; in the lazy one it only flushes the record. */
  function DoneStep(t: seq<byte>, st: State, isLazy: bool): Step {
    if isLazy then Next(State(st.regs.(segment := 0, cursor := 0, addend := 0), []), t)
    else Next(st.(regs := st.regs.(done := true)), t)
  }

  function SetPlace(t: seq<byte>, st: State, imm: nat): Step {
    match ReadUleb(t)
    case Failure(_) => Stop(Truncated)
    case Success(v) => Next(st.(regs := st.regs.(segment := imm, cursor := v.value)), t[v.used..])
  }

  function AddAddress(t: seq<byte>, st: State, extra: nat): Step {
    match ReadUleb(t)
    case Failure(_) => Stop(Truncated)
    case Success(v) => Next(Moved(st, v.value + extra), t[v.used..])
  }

  /** Both counts are read before anything is emitted. */
  function Skipping(t: seq<byte>, st: State, kind: StreamKind): Step {
    match ReadUleb(t)
    case Failure(_) => Stop(Truncated)
    case Success(times) =>
      match ReadUleb(t[times.used..])
      case Failure(_) => Stop(Truncated)
      case Success(skip) => Next(Repeated(st, kind, times.value, skip.value), t[times.used..][skip.used..])
  }

  /** One opcode of a rebase stream; `t` follows the opcode byte. */
  function RebaseStep(opcode: nat, imm: nat, t: seq<byte>, st: State): Step
    requires opcode < 16
  {
    match opcode
    case 1 => if imm != 1 then Stop(UnsupportedFixup(Rebase, imm % 0x100)) else Next(st, t)
    case 2 => SetPlace(t, st, imm)
    case 3 => AddAddress(t, st, 0)
    case 4 => Next(Moved(st, 8 * imm), t)
    case 5 => Next(Repeated(st, Rebase, imm, 0), t)
    case 6 =>
      (match ReadUleb(t)
       case Failure(_) => Stop(Truncated)
       case Success(times) => Next(Repeated(st, Rebase, times.value, 0), t[times.used..]))
    case 7 => AddAddress(t, Pushed(st, Rebase), 8)
    case 8 => Skipping(t, st, Rebase)
    case _ => Stop(UnsupportedFixup(Rebase, opcode * 0x10))
  }

  /** SET_SYMBOL: the name is re-encoded lossily, and its new length moves the reader. */
  function SymbolStep(t: seq<byte>, st: State): Step {
    if NulAt(t) == |t| then Stop(Truncated)
    else
      var name := Lossy(t[..NulAt(t)]);
      Next(st.(symbol := name), Drop(t, |name| + 1))
  }

  /** One opcode of a bind stream; `t` follows the opcode byte. */
  function BindStep(opcode: nat, imm: nat, t: seq<byte>, st: State): Step
    requires opcode < 16
  {
    match opcode
    case 1 => Next(st, t)
    case 2 =>
      (match ReadUleb(t)
       case Failure(_) => Stop(Truncated)
       case Success(v) => Next(st, t[v.used..]))
    case 3 => Next(st, t)
    case 4 => SymbolStep(t, st)
    case 5 => if imm != 1 && imm != 0 then Stop(UnsupportedFixup(Bind, imm % 0x100)) else Next(st, t)
    case 6 =>
      (match ReadSleb(t)
       case Failure(_) => Stop(Truncated)
       case Success(v) => Next(st.(regs := st.regs.(addend := v.value)), t[v.used..]))
    case 7 => SetPlace(t, st, imm)
    case 8 => AddAddress(t, st, 0)
    case 9 => Next(Moved(Pushed(st, Bind), 8), t)
    case 10 => AddAddress(t, Pushed(st, Bind), 8)
    case 11 => Next(Moved(Pushed(st, Bind), 8 * (imm + 1)), t)
    case 12 => Skipping(t, st, Bind)
    case _ => Stop(UnsupportedFixup(Bind, opcode * 0x10))
  }

  function OpStep(t: seq<byte>, st: State, kind: StreamKind, isLazy: bool): (r: Step)
    requires t != []
    ensures r.Next? ==> |r.rest| < |t|
  {
    var opcode, imm := t[0] / 0x10, t[0] % 0x10;
    if opcode == 0 then DoneStep(t[1..], st, isLazy)
    else if kind == Rebase then RebaseStep(opcode, imm, t[1..], st)
    else BindStep(opcode, imm, t[1..], st)
  }

  function Run(t: seq<byte>, st: State, kind: StreamKind, isLazy: bool): Outcome
    decreases |t|
  {
    if st.regs.done || t == [] then Outcome(st.symbol, Success(st.regs.out))
    else match OpStep(t, st, kind, isLazy)
      case Next(next, rest) => Run(rest, next, kind, isLazy)
      case Stop(error) => Outcome(st.symbol, Failure(error))
  }

  /** A whole call on the window `t`, with the symbol the previous call left. */
  function Decode(t: seq<byte>, symbol: seq<byte>, kind: StreamKind, isLazy: bool): Outcome {
    Run(t, State(RESET, symbol), kind, isLazy)
  }

  /** The thread's symbol cell and the decoder that runs over it. */
  class Decoder {
    var symbol: seq<byte>

    constructor ()
      ensures symbol == []
    {
      symbol := [];
    }

    method Repeat(regs: Regs, kind: StreamKind, times: nat, skip: u64) returns (next: Regs)
      ensures State(next, symbol) == Repeated(State(regs, symbol), kind, times, skip)
    {
      next := regs;
      for i := 0 to times
        invariant Repeated(State(next, symbol), kind, times - i, skip) == Repeated(State(regs, symbol), kind, times, skip)
      {
        next := next.(out := next.out + [EntryAt(State(next, symbol), kind)]);
        next := next.(cursor := Wrap64(next.cursor + (skip + 8)));
      }
    }

    method ReadName(t: seq<byte>) returns (name: Option<seq<byte>>)
      ensures name == if NulAt(t) == |t| then None else Some(Lossy(t[..NulAt(t)]))
    {
      var p := 0;
      while p < |t| && t[p] != 0
        invariant p <= |t| && NulAt(t) == p + NulAt(t[p..])
      {
        p := p + 1;
      }
      name := if p >= |t| then None else Some(Lossy(t[..p]));
    }

    method PlaceOp(s: seq<byte>, p: nat, imm: nat, regs: Regs) returns (r: Result<(Regs, nat), DecodeError>)
      requires p <= |s|
      ensures r.Success? ==> p <= r.value.1 <= |s|
      ensures SetPlace(s[p..], State(regs, symbol), imm)
           == if r.Failure? then Stop(r.error) else Next(State(r.value.0, symbol), s[r.value.1..])
    {
      var v := ReadUlebAt(s, p);
      if v.Failure? { return Failure(Truncated); }
      r := Success((regs.(segment := imm, cursor := v.value.value), p + v.value.used));
    }

    method MoveOp(s: seq<byte>, p: nat, regs: Regs, extra: nat) returns (r: Result<(Regs, nat), DecodeError>)
      requires p <= |s|
      ensures r.Success? ==> p <= r.value.1 <= |s|
      ensures AddAddress(s[p..], State(regs, symbol), extra)
           == if r.Failure? then Stop(r.error) else Next(State(r.value.0, symbol), s[r.value.1..])
    {
      var v := ReadUlebAt(s, p);
      if v.Failure? { return Failure(Truncated); }
      r := Success((regs.(cursor := Wrap64(regs.cursor + (v.value.value + extra))), p + v.value.used));
    }

    method RebaseOp(s: seq<byte>, p: nat, opcode: nat, imm: nat, regs: Regs) returns (r: Result<(Regs, nat), DecodeError>)
      requires p <= |s| && opcode < 16
      ensures r.Success? ==> p <= r.value.1 <= |s|
      ensures RebaseStep(opcode, imm, s[p..], State(regs, symbol))
           == if r.Failure? then Stop(r.error) else Next(State(r.value.0, symbol), s[r.value.1..])
    {
      var next := regs;
      match opcode {
        case 1 =>
          if imm != 1 { return Failure(UnsupportedFixup(Rebase, imm % 0x100)); }
          r := Success((next, p));
        case 2 =>
          r := PlaceOp(s, p, imm, regs);
        case 3 =>
          r := MoveOp(s, p, regs, 0);
        case 4 =>
          r := Success((next.(cursor := Wrap64(next.cursor + 8 * imm)), p));
        case 5 =>
          next := Repeat(next, Rebase, imm, 0);
          r := Success((next, p));
        case 6 =>
          var times := ReadUlebAt(s, p);
          if times.Failure? { return Failure(Truncated); }
          next := Repeat(next, Rebase, times.value.value, 0);
          r := Success((next, p + times.value.used));
        case 7 =>
          next := next.(out := next.out + [EntryAt(State(next, symbol), Rebase)]);
          r := MoveOp(s, p, next, 8);
        case 8 =>
          r := SkippingOp(s, p, regs, Rebase);
        case _ =>
          r := Failure(UnsupportedFixup(Rebase, opcode * 0x10));
      }
    }

    method SkippingOp(s: seq<byte>, p: nat, regs: Regs, kind: StreamKind) returns (r: Result<(Regs, nat), DecodeError>)
      requires p <= |s|
      ensures r.Success? ==> p <= r.value.1 <= |s|
      ensures Skipping(s[p..], State(regs, symbol), kind)
           == if r.Failure? then Stop(r.error) else Next(State(r.value.0, symbol), s[r.value.1..])
    {
      var times := ReadUlebAt(s, p);
      if times.Failure? { return Failure(Truncated); }
      var q := p + times.value.used;
      assert s[p..][times.value.used..] == s[q..];
      var skip := ReadUlebAt(s, q);
      if skip.Failure? { return Failure(Truncated); }
      var next := Repeat(regs, kind, times.value.value, skip.value.value);
      assert s[q..][skip.value.used..] == s[q + skip.value.used..];
      r := Success((next, q + skip.value.used));
    }

    method SymbolOp(s: seq<byte>, p: nat, regs: Regs) returns (r: Result<(Regs, nat), DecodeError>)
      requires p <= |s|
      modifies this
      ensures r.Success? ==> p <= r.value.1
      ensures SymbolStep(s[p..], State(regs, old(symbol)))
           == if r.Failure? then Stop(r.error) else Next(State(r.value.0, symbol), Drop(s, r.value.1))
      ensures r.Failure? ==> symbol == old(symbol)
    {
      var name := ReadName(s[p..]);
      if name.None? { return Failure(Truncated); }
      symbol := name.value;
      r := Success((regs, p + |name.value| + 1));
    }

    /** The new position may lie past the end: a replaced name can be longer than the bytes it replaces. */
    method BindOp(s: seq<byte>, p: nat, opcode: nat, imm: nat, regs: Regs) returns (r: Result<(Regs, nat), DecodeError>)
      requires p <= |s| && opcode < 16
      modifies this
      ensures r.Success? ==> p <= r.value.1
      ensures BindStep(opcode, imm, s[p..], State(regs, old(symbol)))
           == if r.Failure? then Stop(r.error) else Next(State(r.value.0, symbol), Drop(s, r.value.1))
      ensures r.Failure? ==> symbol == old(symbol)
    {
      var next := regs;
      match opcode {
        case 1 =>
          r := Success((next, p));
        case 2 =>
          var v := ReadUlebAt(s, p);
          if v.Failure? { return Failure(Truncated); }
          r := Success((next, p + v.value.used));
        case 3 =>
          r := Success((next, p));
        case 4 =>
          r := SymbolOp(s, p, regs);
        case 5 =>
          if imm != 1 && imm != 0 { return Failure(UnsupportedFixup(Bind, imm % 0x100)); }
          r := Success((next, p));
        case 6 =>
          var v := ReadSlebAt(s, p);
          if v.Failure? { return Failure(Truncated); }
          r := Success((next.(addend := v.value.value), p + v.value.used));
        case 7 =>
          r := PlaceOp(s, p, imm, regs);
        case 8 =>
          r := MoveOp(s, p, regs, 0);
        case 9 =>
          next := next.(out := next.out + [EntryAt(State(next, symbol), Bind)]);
          r := Success((next.(cursor := Wrap64(next.cursor + 8)), p));
        case 10 =>
          next := next.(out := next.out + [EntryAt(State(next, symbol), Bind)]);
          r := MoveOp(s, p, next, 8);
        case 11 =>
          next := next.(out := next.out + [EntryAt(State(next, symbol), Bind)]);
          r := Success((next.(cursor := Wrap64(next.cursor + 8 * (imm + 1))), p));
        case 12 =>
          r := SkippingOp(s, p, regs, Bind);
        case _ =>
          r := Failure(UnsupportedFixup(Bind, opcode * 0x10));
      }
    }

    /** `decode_stream`: the window, the loop over opcodes, and the symbol left for the next call. */
    method DecodeStream(d: seq<byte>, off: u32, size: u32, kind: StreamKind, isLazy: bool) returns (r: Result<seq<Entry>, DecodeError>)
      modifies this
      ensures off + size > |d| ==> r == Failure(Truncated) && symbol == old(symbol)
      ensures off + size <= |d| ==> Outcome(symbol, r) == Decode(d[off..off + size], old(symbol), kind, isLazy)
    {
      if off + size > |d| {
        return Failure(Truncated);
      }
      var s := d[off..off + size];
      var p, regs := 0, RESET;
      while !regs.done && p < |s|
        invariant Run(Drop(s, p), State(regs, symbol), kind, isLazy) == Decode(s, old(symbol), kind, isLazy)
        decreases |s| - p
      {
        var opcode, imm := s[p] / 0x10, s[p] % 0x10;
        ghost var t, st := s[p..], State(regs, symbol);
        p := p + 1;
        assert t[1..] == s[p..];
        if opcode == 0 {
          if isLazy {
            regs := regs.(segment := 0, cursor := 0, addend := 0);
            symbol := [];
          } else {
            regs := regs.(done := true);
          }
        } else {
          var step;
          if kind == Rebase {
            step := RebaseOp(s, p, opcode, imm, regs);
          } else {
            step := BindOp(s, p, opcode, imm, regs);
          }
          if step.Failure? {
            return Failure(step.error);
          }
          regs, p := step.value.0, step.value.1;
        }
      }
      r := Success(regs.out);
    }
  }
}
