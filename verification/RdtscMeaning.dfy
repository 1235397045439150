/**
 * What the timing idioms and their replacements compute: the few instructions they are made of, run on
 * the registers they touch. Flags are not modelled.
 */
module RdtscMeaning {
  import opened Bytes
  import opened Wrappers
  import opened Rdtsc

  // ── instructions ─────────────────────────────────────────────────────────

  /** The registers, in the order of their numbers. */
  datatype Register = Rax | Rcx | Rdx

  datatype Instruction = Nop | Rdtsc
                       | Xor32(to: Register, from: Register) | Mov(to: Register, from: Register) | Or(to: Register, from: Register)
                       | Shl(to: Register, count: byte) | And(to: Register, mask: byte)

  function Numbered(n: nat): Option<Register> {
    match n
    case 0 => Some(Rax)
    case 1 => Some(Rcx)
    case 2 => Some(Rdx)
    case _ => None
  }

  /** The operands of a register-to-register form: the destination in the low three bits. */
  function Operands(m: byte): Option<(Register, Register)> {
    match (Numbered(m % 8), Numbered(m / 8 % 8))
    case (Some(to), Some(from)) => if m >= 0xC0 then Some((to, from)) else None
    case _ => None
  }

  /** The instruction at the start of `code` and its length; None for anything but these forms. */
  function First(code: seq<byte>): (next: Option<(Instruction, nat)>)
    ensures next.Some? ==> 0 < next.value.1 <= |code|
  {
    if |code| >= 1 && code[0] == 0x90 then Some((Nop, 1))
    else if |code| >= 2 && code[0] == 0x0F && code[1] == 0x31 then Some((Rdtsc, 2))
    else if |code| >= 2 && code[0] == 0x31 && Operands(code[1]).Some? then Some((Xor32(Operands(code[1]).value.0, Operands(code[1]).value.1), 2))
    else if |code| < 3 || code[0] != 0x48 then None
    else if code[1] == 0x89 && Operands(code[2]).Some? then Some((Mov(Operands(code[2]).value.0, Operands(code[2]).value.1), 3))
    else if code[1] == 0x09 && Operands(code[2]).Some? then Some((Or(Operands(code[2]).value.0, Operands(code[2]).value.1), 3))
    else if |code| < 4 || code[2] < 0xE0 || Numbered(code[2] - 0xE0).None? then None
    else if code[1] == 0xC1 && code[3] < 64 then Some((Shl(Numbered(code[2] - 0xE0).value, code[3]), 4))
    else if code[1] == 0x83 && code[3] < 0x80 then Some((And(Numbered(code[2] - 0xE0).value, code[3]), 4))
    else None
  }

  function Disassembled(code: seq<byte>): Option<seq<Instruction>> {
    if code == [] then Some([])
    else match First(code)
      case None => None
      case Some((i, n)) =>
        match Disassembled(code[n..])
        case None => None
        case Some(rest) => Some([i] + rest)
  }

  lemma NextInstruction(head: seq<byte>, rest: seq<byte>, i: Instruction, more: seq<Instruction>)
    requires head != [] && First(head + rest) == Some((i, |head|)) && Disassembled(rest) == Some(more)
    ensures Disassembled(head + rest) == Some([i] + more)
  {
    assert (head + rest)[|head|..] == rest;
  }

  function Padding(n: nat): seq<Instruction> { seq(n, _ => Nop) }

  lemma {:induction false} Nops(code: seq<byte>)
    requires forall i :: 0 <= i < |code| ==> code[i] == 0x90
    ensures Disassembled(code) == Some(Padding(|code|))
    decreases |code|
  {
    if code != [] {
      Nops(code[1..]);
      assert First(code) == Some((Nop, 1));
      assert Disassembled(code) == Some([Nop] + Padding(|code| - 1));
      assert [Nop] + Padding(|code| - 1) == Padding(|code|);
    }
  }

  /** The encodings met, before any other code. */
  lemma CounterRead(rest: seq<byte>)
    ensures First([0x0F, 0x31] + rest) == Some((Rdtsc, 2))
  {
  }

  lemma Cleared(rest: seq<byte>)
    ensures First([0x31, 0xC0] + rest) == Some((Xor32(Rax, Rax), 2)) && First([0x31, 0xD2] + rest) == Some((Xor32(Rdx, Rdx), 2))
  {
  }

  lemma Joined(rest: seq<byte>)
    ensures First([0x48, 0x09, 0xC2] + rest) == Some((Or(Rdx, Rax), 3)) && First([0x48, 0x09, 0xC1] + rest) == Some((Or(Rcx, Rax), 3))
    ensures First([0x48, 0x89, 0xD1] + rest) == Some((Mov(Rcx, Rdx), 3))
  {
  }

  lemma ByConstant(rest: seq<byte>)
    ensures First([0x48, 0xC1, 0xE2, 0x20] + rest) == Some((Shl(Rdx, 32), 4)) && First([0x48, 0xC1, 0xE1, 0x20] + rest) == Some((Shl(Rcx, 32), 4))
    ensures First([0x48, 0xC1, 0xE0, 0x04] + rest) == Some((Shl(Rax, 4), 4)) && First([0x48, 0x83, 0xE0, 0x70] + rest) == Some((And(Rax, 0x70), 4))
  {
  }

  lemma ReplacementCode(kind: nat)
    ensures Disassembled(Replacement(kind)) == Some([Xor32(Rax, Rax)] + ([Xor32(Rdx, Rdx)] + Padding(Size(kind) - 4)))
  {
    var pad, nops := Replacement(kind)[4..], Padding(Size(kind) - 4);
    Nops(pad);
    assert Replacement(kind) == [0x31, 0xC0] + ([0x31, 0xD2] + pad);
    ClearThen(pad, nops);
  }

  lemma ClearThen(pad: seq<byte>, nops: seq<Instruction>)
    requires Disassembled(pad) == Some(nops)
    ensures Disassembled([0x31, 0xC0] + ([0x31, 0xD2] + pad)) == Some([Xor32(Rax, Rax)] + ([Xor32(Rdx, Rdx)] + nops))
  {
    Cleared(pad);
    NextInstruction([0x31, 0xD2], pad, Xor32(Rdx, Rdx), nops);
    Cleared([0x31, 0xD2] + pad);
    NextInstruction([0x31, 0xC0], [0x31, 0xD2] + pad, Xor32(Rax, Rax), [Xor32(Rdx, Rdx)] + nops);
  }

  /** Three instructions after each other. */
  lemma Three(a: seq<byte>, b: seq<byte>, c: seq<byte>, i: Instruction, j: Instruction, k: Instruction)
    requires a != [] && b != [] && c != []
    requires forall rest :: First(a + rest) == Some((i, |a|))
    requires forall rest :: First(b + rest) == Some((j, |b|))
    requires forall rest :: First(c + rest) == Some((k, |c|))
    ensures Disassembled(a + (b + c)) == Some([i, j, k])
  {
    var none: seq<byte>, end: seq<Instruction> := [], [];
    assert Disassembled(none) == Some(end);
    NextInstruction(c, none, k, end);
    assert c + none == c && [k] + end == [k];
    NextInstruction(b, c, j, [k]);
    NextInstruction(a, b + c, i, [j] + [k]);
    assert [i] + ([j] + [k]) == [i, j, k];
  }

  lemma IdiomCodeA()
    ensures Disassembled(Idiom(0)) == Some([Rdtsc, Shl(Rdx, 32), Or(Rdx, Rax)])
  {
    forall rest: seq<byte> ensures First([0x0F, 0x31] + rest) == Some((Rdtsc, 2)) { CounterRead(rest); }
    forall rest: seq<byte> ensures First([0x48, 0xC1, 0xE2, 0x20] + rest) == Some((Shl(Rdx, 32), 4)) { ByConstant(rest); }
    forall rest: seq<byte> ensures First([0x48, 0x09, 0xC2] + rest) == Some((Or(Rdx, Rax), 3)) { Joined(rest); }
    Three([0x0F, 0x31], [0x48, 0xC1, 0xE2, 0x20], [0x48, 0x09, 0xC2], Rdtsc, Shl(Rdx, 32), Or(Rdx, Rax));
    assert Idiom(0) == [0x0F, 0x31] + ([0x48, 0xC1, 0xE2, 0x20] + [0x48, 0x09, 0xC2]);
  }

  lemma IdiomCodeB()
    ensures Disassembled(Idiom(1)) == Some([Rdtsc] + [Mov(Rcx, Rdx), Shl(Rcx, 32), Or(Rcx, Rax)])
  {
    forall rest: seq<byte> ensures First([0x48, 0x89, 0xD1] + rest) == Some((Mov(Rcx, Rdx), 3)) { Joined(rest); }
    forall rest: seq<byte> ensures First([0x48, 0xC1, 0xE1, 0x20] + rest) == Some((Shl(Rcx, 32), 4)) { ByConstant(rest); }
    forall rest: seq<byte> ensures First([0x48, 0x09, 0xC1] + rest) == Some((Or(Rcx, Rax), 3)) { Joined(rest); }
    Three([0x48, 0x89, 0xD1], [0x48, 0xC1, 0xE1, 0x20], [0x48, 0x09, 0xC1], Mov(Rcx, Rdx), Shl(Rcx, 32), Or(Rcx, Rax));
    var after := [0x48, 0x89, 0xD1] + ([0x48, 0xC1, 0xE1, 0x20] + [0x48, 0x09, 0xC1]);
    CounterRead(after);
    NextInstruction([0x0F, 0x31], after, Rdtsc, [Mov(Rcx, Rdx), Shl(Rcx, 32), Or(Rcx, Rax)]);
    assert Idiom(1) == [0x0F, 0x31] + after;
  }

  lemma IdiomCodeC(kind: nat)
    requires kind >= 2
    ensures Disassembled(Idiom(kind)) == Some([Rdtsc, Shl(Rax, 4), And(Rax, 0x70)])
  {
    forall rest: seq<byte> ensures First([0x0F, 0x31] + rest) == Some((Rdtsc, 2)) { CounterRead(rest); }
    forall rest: seq<byte> ensures First([0x48, 0xC1, 0xE0, 0x04] + rest) == Some((Shl(Rax, 4), 4)) { ByConstant(rest); }
    forall rest: seq<byte> ensures First([0x48, 0x83, 0xE0, 0x70] + rest) == Some((And(Rax, 0x70), 4)) { ByConstant(rest); }
    Three([0x0F, 0x31], [0x48, 0xC1, 0xE0, 0x04], [0x48, 0x83, 0xE0, 0x70], Rdtsc, Shl(Rax, 4), And(Rax, 0x70));
    assert Idiom(kind) == [0x0F, 0x31] + ([0x48, 0xC1, 0xE0, 0x04] + [0x48, 0x83, 0xE0, 0x70]);
  }

  // ── what they do ─────────────────────────────────────────────────────────

  /** Bit by bit. */
  function XorBits(a: nat, b: nat): nat {
    if a == 0 && b == 0 then 0 else 2 * XorBits(a / 2, b / 2) + if a % 2 == b % 2 then 0 else 1
  }

  function OrBits(a: nat, b: nat): nat {
    if a == 0 && b == 0 then 0 else 2 * OrBits(a / 2, b / 2) + if a % 2 == 0 && b % 2 == 0 then 0 else 1
  }

  function AndBits(a: nat, b: nat): nat {
    if a == 0 || b == 0 then 0 else 2 * AndBits(a / 2, b / 2) + if a % 2 == 1 && b % 2 == 1 then 1 else 0
  }

  datatype Regs = Regs(rax: nat, rcx: nat, rdx: nat) {
    function Get(n: Register): nat {
      match n case Rax => rax case Rcx => rcx case Rdx => rdx
    }

    function Set(n: Register, v: nat): Regs {
      match n case Rax => this.(rax := v) case Rcx => this.(rcx := v) case Rdx => this.(rdx := v)
    }
  }

  function Low(v: nat): nat { v % 0x1_0000_0000 }

  function High(v: nat): nat { v / 0x1_0000_0000 }

  /** `counter` is what the time-stamp counter reads; a 32-bit operation clears the upper half. */
  function Effect(i: Instruction, r: Regs, counter: u64): Regs {
    match i
    case Nop => r
    case Rdtsc => r.(rax := Low(counter), rdx := High(counter))
    case Xor32(to, from) => r.Set(to, XorBits(Low(r.Get(to)), Low(r.Get(from))))
    case Mov(to, from) => r.Set(to, r.Get(from))
    case Or(to, from) => r.Set(to, OrBits(r.Get(to), r.Get(from)))
    case Shl(to, count) => r.Set(to, Shifted(r.Get(to), count))
    case And(to, mask) => r.Set(to, AndBits(r.Get(to), mask))
  }

  /** Shifted left, in 64 bits. */
  function Shifted(v: nat, count: nat): nat { if count == 0 then v else Wrap64(2 * Shifted(v, count - 1)) }

  function Run(program: seq<Instruction>, r: Regs, counter: u64): Regs {
    if program == [] then r else Run(program[1..], Effect(program[0], r, counter), counter)
  }

  /** The registers after straight-line code. */
  function Execute(code: seq<byte>, r: Regs, counter: u64): Option<Regs> {
    match Disassembled(code) case None => None case Some(program) => Some(Run(program, r, counter))
  }

  lemma RunFirst(i: Instruction, rest: seq<Instruction>, r: Regs, counter: u64)
    ensures Run([i] + rest, r, counter) == Run(rest, Effect(i, r, counter), counter)
  {
  }

  lemma {:induction false} RunPadding(n: nat, r: Regs, counter: u64)
    ensures Run(Padding(n), r, counter) == r
  {
    if n > 0 {
      assert Padding(n)[1..] == Padding(n - 1);
      RunPadding(n - 1, r, counter);
    }
  }

  lemma {:induction false} XorSelf(v: nat)
    ensures XorBits(v, v) == 0
  {
    if v > 0 { XorSelf(v / 2); }
  }

  /** Every replacement leaves zero in both registers the counter is read into, and keeps the third. */
  lemma ReplacementMeans(kind: nat, r: Regs, counter: u64)
    ensures Execute(Replacement(kind), r, counter) == Some(Regs(0, r.rcx, 0))
  {
    var pad := Padding(Size(kind) - 4);
    ReplacementCode(kind);
    XorSelf(Low(r.rax));
    XorSelf(Low(r.rdx));
    RunFirst(Xor32(Rax, Rax), [Xor32(Rdx, Rdx)] + pad, r, counter);
    RunFirst(Xor32(Rdx, Rdx), pad, r.(rax := 0), counter);
    RunPadding(Size(kind) - 4, Regs(0, r.rcx, 0), counter);
  }

  lemma {:induction false} ShiftSmall(v: nat, count: nat)
    requires v * Pow2(count) < 0x1_0000_0000_0000_0000
    ensures Shifted(v, count) == v * Pow2(count)
  {
    if count > 0 {
      var half := v * Pow2(count - 1);
      assert v * Pow2(count) == 2 * half;
      ShiftSmall(v, count - 1);
      WrapSmall(2 * half);
    }
  }

  /** Halves that share no bit are put together by addition. */
  lemma {:induction false} OrDisjoint(high: nat, low: nat, n: nat)
    requires low < Pow2(n)
    ensures OrBits(high * Pow2(n), low) == high * Pow2(n) + low
  {
    if n == 0 {
      OrZero(high);
    } else {
      var above := high * Pow2(n - 1);
      assert high * Pow2(n) == 2 * above;
      OrDisjoint(high, low / 2, n - 1);
      OrEven(above, low);
    }
  }

  lemma OrEven(a: nat, b: nat)
    ensures OrBits(2 * a, b) == 2 * OrBits(a, b / 2) + b % 2
  {
  }

  lemma {:induction false} OrZero(a: nat)
    ensures OrBits(a, 0) == a
  {
    if a > 0 { OrZero(a / 2); }
  }

  lemma Pow32()
    ensures Pow2(32) == 0x1_0000_0000
  {
    assert Pow2(8) == 0x100;
    assert Pow2(16) == 0x1_0000 by { assert Pow2(12) == 0x1000; }
    assert Pow2(24) == 0x100_0000 by { assert Pow2(20) == 0x10_0000; }
    assert Pow2(28) == 0x1000_0000;
  }

  /** The two halves of the counter put together are the counter. */
  lemma Halves(counter: u64)
    ensures OrBits(Shifted(High(counter), 32), Low(counter)) == counter
  {
    Pow32();
    ShiftSmall(High(counter), 32);
    OrDisjoint(High(counter), Low(counter), 32);
  }

  lemma RunThree(a: Instruction, b: Instruction, c: Instruction, r: Regs, counter: u64, second: Regs, third: Regs)
    requires second == Effect(a, r, counter) && third == Effect(b, second, counter)
    ensures Run([a, b, c], r, counter) == Effect(c, third, counter)
  {
    assert [a, b, c] == [a] + [b, c] && [b, c] == [b] + [c];
    RunFirst(a, [b, c], r, counter);
    RunFirst(b, [c], second, counter);
    assert [c] == [c] + [];
    RunFirst(c, [], third, counter);
  }

  /** The first idiom leaves the counter in rdx, the second in rcx, the third three bits of it in rax. */
  lemma IdiomMeans(kind: nat, r: Regs, counter: u64)
    ensures Execute(Idiom(kind), r, counter) ==
            if kind == 0 then Some(Regs(Low(counter), r.rcx, counter))
            else if kind == 1 then Some(Regs(Low(counter), counter, High(counter)))
            else Some(Regs(AndBits(Shifted(Low(counter), 4), 0x70), r.rcx, High(counter)))
  {
    var low, high := Low(counter), High(counter);
    Halves(counter);
    if kind == 0 {
      IdiomCodeA();
      RunThree(Rdtsc, Shl(Rdx, 32), Or(Rdx, Rax), r, counter, Regs(low, r.rcx, high), Regs(low, r.rcx, Shifted(high, 32)));
    } else if kind == 1 {
      IdiomCodeB();
      RunFirst(Rdtsc, [Mov(Rcx, Rdx), Shl(Rcx, 32), Or(Rcx, Rax)], r, counter);
      RunThree(Mov(Rcx, Rdx), Shl(Rcx, 32), Or(Rcx, Rax), Regs(low, r.rcx, high), counter, Regs(low, high, high), Regs(low, Shifted(high, 32), high));
    } else {
      IdiomCodeC(kind);
      RunThree(Rdtsc, Shl(Rax, 4), And(Rax, 0x70), r, counter, Regs(low, r.rcx, high), Regs(Shifted(low, 4), r.rcx, high));
    }
  }

  /**
   * A replacement leaves what its idiom leaves when the counter reads zero exactly when it is not the
   * second idiom or rcx was zero before: the second idiom's result is in rcx, which its replacement
   * does not write.
   */
  lemma FrozenClock(kind: nat, r: Regs, counter: u64)
    ensures Execute(Replacement(kind), r, counter) == Execute(Idiom(kind), r, 0) <==> kind != 1 || r.rcx == 0
  {
    ReplacementMeans(kind, r, counter);
    IdiomMeans(kind, r, 0);
    ShiftSmall(0, 4);
  }

  /** In any case the registers the counter is read into are those of a counter at zero. */
  lemma CounterReadsZero(kind: nat, r: Regs, counter: u64)
    ensures var done, read := Execute(Replacement(kind), r, counter), Effect(Rdtsc, r, 0);
            done.Some? && done.value.rax == read.rax && done.value.rdx == read.rdx
  {
    ReplacementMeans(kind, r, counter);
  }
}
