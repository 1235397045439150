/** Base64 (section 4 of RFC 4648) as crates/perun-cli/src/sap.rs writes and reads it. */
module Base64 {
  import opened Bytes
  import opened Wrappers

  type Sextet = v: int | 0 <= v < 64

  const PAD: byte := 0x3D

  /** A-Z, a-z, 0-9, + and /. */
  function Digit(v: Sextet): byte {
    if v < 26 then 0x41 + v
    else if v < 52 then 0x61 + (v - 26)
    else if v < 62 then 0x30 + (v - 52)
    else if v == 62 then 0x2B
    else 0x2F
  }

  function Position(b: byte): (v: Option<Sextet>)
    ensures v.Some? <==> exists s: Sextet :: Digit(s) == b
    ensures v.Some? ==> Digit(v.value) == b
  {
    var v := if 0x41 <= b <= 0x5A then Some(b - 0x41)
             else if 0x61 <= b <= 0x7A then Some(b - 0x61 + 26)
             else if 0x30 <= b <= 0x39 then Some(b - 0x30 + 52)
             else if b == 0x2B then Some(62)
             else if b == 0x2F then Some(63)
             else None;
    assert v.Some? ==> Digit(v.value) == b;
    v
  }

  lemma PositionOfDigit(v: Sextet)
    ensures Position(Digit(v)) == Some(v) && Digit(v) != PAD
  {
  }

  // ── bit strings ──────────────────────────────────────────────────────────

  /** The low `n` bits of `a`, most significant first. */
  function Bits(a: nat, n: nat): (bs: seq<bool>)
    ensures |bs| == n
    decreases n, a
  {
    if n == 0 then [] else Bits(a / 2, n - 1) + [a % 2 == 1]
  }

  function Quot(a: nat, d: nat): (q: nat)
    requires d > 0
  {
    a / d
  }

  /** High part, then low part. */
  lemma {:induction false} BitsSplit(a: nat, m: nat, k: nat)
    ensures Bits(a, m + k) == Bits(Quot(a, Pow2(k)), m) + Bits(a, k)
    decreases k
  {
    if k > 0 {
      var p := Pow2(k - 1);
      BitsSplit(a / 2, m, k - 1);
      HalfThen(a, p);
      assert Bits(a, m + k) == Bits(a / 2, m + (k - 1)) + [a % 2 == 1];
    }
  }

  lemma HalfThen(a: nat, p: nat)
    requires p > 0
    ensures a / 2 / p == a / (2 * p)
  {
    var q, r := a / 2 / p, a / 2 % p;
    assert a / 2 == p * q + r;
    assert a == (2 * p) * q + (2 * r + a % 2);
    Quotient(a, 2 * p, q, 2 * r + a % 2);
  }

  lemma Quotient(a: nat, d: nat, q: nat, r: nat)
    requires d > 0 && r < d && a == d * q + r
    ensures a / d == q
  {
    if a / d < q {
      TimesGrows(a / d + 1, q, d);
    } else if a / d > q {
      TimesGrows(q + 1, a / d, d);
    }
  }

  lemma TimesGrows(x: nat, y: nat, d: nat)
    requires x <= y
    ensures d * x <= d * y
  {
  }

  /** Multiples of `2^n` above do not show in the low `n` bits. */
  lemma {:induction false} BitsLow(a: nat, t: nat, n: nat)
    ensures Bits(a + t * Pow2(n), n) == Bits(a, n)
    decreases n
  {
    if n > 0 {
      var p := Pow2(n - 1);
      assert t * Pow2(n) == 2 * (t * p);
      BitsLow(a / 2, t, n - 1);
      assert (a + 2 * (t * p)) / 2 == a / 2 + t * p;
    }
  }

  lemma {:induction false} BitsInjective(a: nat, b: nat, n: nat)
    requires a < Pow2(n) && b < Pow2(n) && Bits(a, n) == Bits(b, n)
    ensures a == b
    decreases n
  {
    if n > 0 {
      var x, y := Bits(a, n), Bits(b, n);
      assert x[n - 1] == (a % 2 == 1) && y[n - 1] == (b % 2 == 1);
      assert x[..n - 1] == Bits(a / 2, n - 1) && y[..n - 1] == Bits(b / 2, n - 1);
      BitsInjective(a / 2, b / 2, n - 1);
    }
  }

  /** Six bits a digit. */
  function DigitBits(ss: seq<Sextet>): (bs: seq<bool>)
    ensures |bs| == 6 * |ss|
  {
    if ss == [] then [] else DigitBits(ss[..|ss| - 1]) + Bits(ss[|ss| - 1], 6)
  }

  /** Eight bits a byte. */
  function ByteBits(bs: seq<byte>): (r: seq<bool>)
    ensures |r| == 8 * |bs|
  {
    if bs == [] then [] else ByteBits(bs[..|bs| - 1]) + Bits(bs[|bs| - 1], 8)
  }

  lemma ByteBitsLast(bs: seq<byte>, b: byte)
    ensures ByteBits(bs + [b]) == ByteBits(bs) + Bits(b, 8)
  {
  }

  lemma DigitBitsLast(ss: seq<Sextet>, v: Sextet)
    ensures DigitBits(ss + [v]) == DigitBits(ss) + Bits(v, 6)
  {
  }

  lemma {:induction false} ByteBitsInjective(a: seq<byte>, b: seq<byte>)
    requires ByteBits(a) == ByteBits(b)
    ensures a == b
    decreases |a|
  {
    if a != [] {
      var n := |a| - 1;
      var x, y := ByteBits(a), ByteBits(b);
      assert x[8 * n..] == Bits(a[n], 8) && y[8 * n..] == Bits(b[n], 8);
      assert x[..8 * n] == ByteBits(a[..n]) && y[..8 * n] == ByteBits(b[..n]);
      assert Pow2(8) == 0x100;
      BitsInjective(a[n], b[n], 8);
      ByteBitsInjective(a[..n], b[..n]);
      assert a == a[..n] + [a[n]] && b == b[..n] + [b[n]];
    }
  }

  // ── decoding ─────────────────────────────────────────────────────────────

  /** The digits before the first pad; None when something else stands there. */
  function Digits(input: seq<byte>): Option<seq<Sextet>> {
    if input == [] || input[0] == PAD then Some([])
    else match Position(input[0])
      case None => None
      case Some(v) => match Digits(input[1..]) case None => None case Some(rest) => Some([v] + rest)
  }

  /** `out` is the digits' bit string cut into bytes, the last incomplete byte dropped. */
  predicate Spells(ss: seq<Sextet>, out: seq<byte>) {
    ByteBits(out) <= DigitBits(ss) && |DigitBits(ss)| - |ByteBits(out)| < 8
  }

  /** There is only one such byte string. */
  lemma SpellsUnique(ss: seq<Sextet>, a: seq<byte>, b: seq<byte>)
    requires Spells(ss, a) && Spells(ss, b)
    ensures a == b
  {
    assert |a| == |b|;
    ByteBitsInjective(a, b);
  }

  /** Shifting in a digit: the accumulator loses its high bits, but never the ones still owed. */
  lemma ShiftIn(acc: u32, bits: nat, v: Sextet)
    requires bits < 8
    ensures Bits(Wrap32(acc * 64 + v), bits + 6) == Bits(acc, bits) + Bits(v, 6)
  {
    var a := acc * 64 + v;
    assert Pow2(6) == 64;
    BitsSplit(a, bits, 6);
    BitsLow(v, acc, 6);
    assert a / 64 == acc;
    WrapKeepsLow(a, bits + 6);
  }

  lemma WrapKeepsLow(a: nat, n: nat)
    requires n < 14
    ensures Bits(Wrap32(a), n) == Bits(a, n)
  {
    var t := a / 0x1_0000_0000;
    var s := SplitWord(n);
    assert a == Wrap32(a) + t * 0x1_0000_0000;
    assert t * 0x1_0000_0000 == t * s * Pow2(n);
    BitsLow(Wrap32(a), t * s, n);
  }

  lemma SplitWord(n: nat) returns (s: nat)
    requires n < 14
    ensures s * Pow2(n) == 0x1_0000_0000
  {
    PowTable();
    s := 0x1_0000_0000 / Pow2(n);
  }

  lemma PowTable()
    ensures Pow2(0) == 1 && Pow2(1) == 2 && Pow2(2) == 4 && Pow2(3) == 8 && Pow2(4) == 16 && Pow2(5) == 32 && Pow2(6) == 64
    ensures Pow2(7) == 0x80 && Pow2(8) == 0x100 && Pow2(9) == 0x200 && Pow2(10) == 0x400 && Pow2(11) == 0x800 && Pow2(12) == 0x1000 && Pow2(13) == 0x2000
  {
  }

  lemma LowBits(a: nat)
    ensures Bits(a, 8) == Bits(a % 0x100, 8)
  {
    assert Pow2(8) == 0x100;
    BitsLow(a % 0x100, a / 0x100, 8);
  }

  /** Taking a byte off the top of the bits owed. */
  lemma TakeByte(acc: u32, bits: nat, top: nat)
    requires 8 <= bits < 14 && top == Quot(acc, Pow2(bits - 8))
    ensures Bits(acc, bits) == Bits(top % 0x100, 8) + Bits(acc, bits - 8)
  {
    BitsSplit(acc, 8, bits - 8);
    LowBits(top);
  }

  /** One digit into the accumulator, and a byte out of it when there are eight bits. */
  method TakeDigit(v: Sextet, acc0: u32, bits0: nat, bytes0: seq<byte>, ghost read: seq<Sextet>) returns (acc: u32, bits: nat, bytes: seq<byte>)
    requires bits0 < 8 && DigitBits(read) == ByteBits(bytes0) + Bits(acc0, bits0)
    ensures bits < 8 && DigitBits(read + [v]) == ByteBits(bytes) + Bits(acc, bits)
  {
    acc, bits, bytes := Wrap32(acc0 * 64 + v), bits0 + 6, bytes0;
    Owed(v, acc0, bits0, bytes0, read, acc);
    if bits >= 8 {
      var top := Quot(acc, Pow2(bits - 8));
      TakeByte(acc, bits, top);
      PushOwed(bytes, top % 0x100, Bits(acc, bits), Bits(acc, bits - 8));
      bytes := bytes + [top % 0x100];
      bits := bits - 8;
    }
  }

  lemma Owed(v: Sextet, acc: u32, bits: nat, bytes: seq<byte>, read: seq<Sextet>, after: u32)
    requires bits < 8 && DigitBits(read) == ByteBits(bytes) + Bits(acc, bits) && after == Wrap32(acc * 64 + v)
    ensures DigitBits(read + [v]) == ByteBits(bytes) + Bits(after, bits + 6)
  {
    ShiftIn(acc, bits, v);
    DigitBitsLast(read, v);
    Regroup(ByteBits(bytes), Bits(acc, bits), Bits(v, 6));
  }

  lemma Regroup(a: seq<bool>, b: seq<bool>, c: seq<bool>)
    ensures a + b + c == a + (b + c)
  {
  }

  lemma PushOwed(bytes: seq<byte>, top: byte, owed: seq<bool>, left: seq<bool>)
    requires owed == Bits(top, 8) + left
    ensures ByteBits(bytes) + owed == ByteBits(bytes + [top]) + left
  {
  }

  /** What is read so far, and what the rest will add. */
  function Joined(read: seq<Sextet>, rest: Option<seq<Sextet>>): Option<seq<Sextet>> {
    match rest case None => None case Some(more) => Some(read + more)
  }

  lemma DigitsNext(input: seq<byte>, i: nat, read: seq<Sextet>)
    requires i < |input| && input[i] != PAD
    ensures Position(input[i]).None? ==> Joined(read, Digits(input[i..])) == None
    ensures Position(input[i]).Some? ==> Joined(read, Digits(input[i..])) == Joined(read + [Position(input[i]).value], Digits(input[i + 1..]))
  {
    var rest := input[i..];
    assert rest[0] == input[i] && rest[1..] == input[i + 1..];
    if Position(input[i]).Some? && Digits(rest[1..]).Some? {
      var v, more := Position(input[i]).value, Digits(rest[1..]).value;
      assert read + ([v] + more) == read + [v] + more;
    }
  }

  lemma DigitsEnd(input: seq<byte>, i: nat, read: seq<Sextet>)
    requires i <= |input| && (i == |input| || input[i] == PAD)
    ensures Joined(read, Digits(input[i..])) == Some(read)
  {
    assert read + [] == read;
  }

  /** `base64_decode` */
  method Decode(input: seq<byte>) returns (out: Option<seq<byte>>)
    ensures out.Some? <==> Digits(input).Some?
    ensures out.Some? ==> Spells(Digits(input).value, out.value)
  {
    var bytes: seq<byte> := [];
    var acc: u32, bits: nat := 0, 0;
    ghost var read: seq<Sextet> := [];
    assert input[0..] == input;
    assert Digits(input).Some? ==> [] + Digits(input).value == Digits(input).value;
    var i := 0;
    while i < |input| && input[i] != PAD
      invariant i <= |input| && bits < 8
      invariant DigitBits(read) == ByteBits(bytes) + Bits(acc, bits)
      invariant Joined(read, Digits(input[i..])) == Digits(input)
    {
      DigitsNext(input, i, read);
      var v := Position(input[i]);
      if v.None? { return None; }
      acc, bits, bytes := TakeDigit(v.value, acc, bits, bytes, read);
      read := read + [v.value];
      i := i + 1;
    }
    DigitsEnd(input, i, read);
    out := Some(bytes);
  }

  // ── encoding ─────────────────────────────────────────────────────────────

  /** The 24 bits of a chunk, zeros standing for missing bytes. */
  function Word(chunk: seq<byte>): (n: nat)
    requires 1 <= |chunk| <= 3
  {
    var b0: int, b1: int, b2: int := chunk[0], (if |chunk| > 1 then chunk[1] else 0), (if |chunk| > 2 then chunk[2] else 0);
    b0 * 0x1_0000 + b1 * 0x100 + b2
  }

  function WordDigits(n: nat): (ss: seq<Sextet>)
    ensures |ss| == 4
  {
    [n / 0x4_0000 % 64, n / 0x1000 % 64, n / 64 % 64, n % 64]
  }

  /** The digits of one chunk of up to three bytes, without padding. */
  function ChunkDigits(chunk: seq<byte>): (ss: seq<Sextet>)
    requires 1 <= |chunk| <= 3
    ensures |ss| == |chunk| + 1
  {
    WordDigits(Word(chunk))[..|chunk| + 1]
  }

  function Text(ss: seq<Sextet>): (t: seq<byte>)
    ensures |t| == |ss|
  {
    seq(|ss|, i requires 0 <= i < |ss| => Digit(ss[i]))
  }

  function Pads(n: nat): seq<byte> { seq(n, _ => PAD) }

  function EncodeChunk(chunk: seq<byte>): seq<byte>
    requires 1 <= |chunk| <= 3
  {
    Text(ChunkDigits(chunk)) + Pads(3 - |chunk|)
  }

  /** `base64_encode`: every chunk of three, then the rest with padding. */
  function Encode(data: seq<byte>): seq<byte> {
    if data == [] then []
    else if |data| <= 3 then EncodeChunk(data)
    else EncodeChunk(data[..3]) + Encode(data[3..])
  }

  method EncodeOne(chunk: seq<byte>) returns (out: seq<byte>)
    requires 1 <= |chunk| <= 3
    ensures out == EncodeChunk(chunk)
  {
    var n := Word(chunk);
    ghost var ss := WordDigits(n);
    out := [Digit(n / 0x4_0000 % 64), Digit(n / 0x1000 % 64)];
    out := out + [if |chunk| > 1 then Digit(n / 64 % 64) else PAD];
    out := out + [if |chunk| > 2 then Digit(n % 64) else PAD];
    assert out[0] == Digit(ss[0]) && out[1] == Digit(ss[1]);
    assert |chunk| > 1 ==> out[2] == Digit(ss[2]);
    assert |chunk| > 2 ==> out[3] == Digit(ss[3]);
  }

  /** The first chunk and the rest. */
  lemma EncodeNext(rest: seq<byte>, n: nat, part: seq<byte>)
    requires 0 < |rest| && n == (if |rest| < 3 then |rest| else 3) && part == EncodeChunk(rest[..n])
    ensures Encode(rest) == part + Encode(rest[n..])
  {
    if |rest| <= 3 {
      assert rest[..n] == rest && rest[n..] == [];
      assert part + Encode([]) == part;
    }
  }

  lemma Associates(a: seq<byte>, b: seq<byte>, c: seq<byte>)
    ensures a + (b + c) == a + b + c
  {
  }

  method EncodeAll(data: seq<byte>) returns (out: seq<byte>)
    ensures out == Encode(data)
  {
    out := [];
    var at := 0;
    while at < |data|
      invariant at <= |data| && out + Encode(data[at..]) == Encode(data)
    {
      var end := if |data| - at < 3 then |data| else at + 3;
      var part := EncodeOne(data[at..end]);
      EncodeNext(data[at..], end - at, part);
      assert data[at..end] == data[at..][..end - at] && data[end..] == data[at..][end - at..];
      Associates(out, part, Encode(data[end..]));
      out := out + part;
      at := end;
    }
  }

  /** All digits of an encoding. */
  function EncodedDigits(data: seq<byte>): seq<Sextet> {
    if data == [] then []
    else if |data| <= 3 then ChunkDigits(data)
    else ChunkDigits(data[..3]) + EncodedDigits(data[3..])
  }

  lemma {:induction false} DigitsOfText(ss: seq<Sextet>, rest: seq<byte>)
    ensures Digits(Text(ss) + rest) == match Digits(rest) case None => None case Some(more) => Some(ss + more)
  {
    var t := Text(ss) + rest;
    if ss == [] {
      assert t == rest;
      if Digits(rest).Some? { assert [] + Digits(rest).value == Digits(rest).value; }
    } else {
      PositionOfDigit(ss[0]);
      assert t[1..] == Text(ss[1..]) + rest;
      DigitsOfText(ss[1..], rest);
      if Digits(rest).Some? { assert [ss[0]] + (ss[1..] + Digits(rest).value) == ss + Digits(rest).value; }
    }
  }

  lemma {:induction false} EncodeDigits(data: seq<byte>)
    ensures Digits(Encode(data)) == Some(EncodedDigits(data))
  {
    if data != [] {
      var chunk := if |data| <= 3 then data else data[..3];
      var ss := ChunkDigits(chunk);
      if |data| <= 3 {
        DigitsOfText(ss, Pads(3 - |chunk|));
        assert ss + [] == ss;
      } else {
        assert EncodeChunk(chunk) == Text(ss);
        EncodeDigits(data[3..]);
        DigitsOfText(ss, Encode(data[3..]));
      }
    }
  }

  function ZeroBits(n: nat): seq<bool> { seq(n, _ => false) }

  /** Putting two numbers side by side. */
  lemma Join(hi: nat, lo: nat, m: nat, k: nat, p: nat)
    requires p == Pow2(k) && lo < p
    ensures Bits(hi * p + lo, m + k) == Bits(hi, m) + Bits(lo, k)
  {
    BitsSplit(hi * p + lo, m, k);
    Quotient(hi * p + lo, p, hi, lo);
    BitsLow(lo, hi, k);
  }

  lemma LowSix(a: nat)
    ensures Bits(a, 6) == Bits(a % 64, 6)
  {
    assert Pow2(6) == 64;
    BitsLow(a % 64, a / 64, 6);
  }

  /** Six bits off the end. */
  lemma SixOff(a: nat, m: nat)
    ensures Bits(a, m + 6) == Bits(a / 64, m) + Bits(a % 64, 6)
  {
    assert Pow2(6) == 64;
    BitsSplit(a, m, 6);
    LowSix(a);
  }

  lemma FourDigits(a: Sextet, b: Sextet, c: Sextet, d: Sextet)
    ensures DigitBits([a, b, c, d]) == Bits(a, 6) + Bits(b, 6) + Bits(c, 6) + Bits(d, 6)
  {
    assert DigitBits([]) == [];
    DigitBitsLast([], a);
    DigitBitsLast([a], b);
    DigitBitsLast([a, b], c);
    DigitBitsLast([a, b, c], d);
    assert [] + [a] == [a] && [a] + [b] == [a, b] && [a, b] + [c] == [a, b, c] && [a, b, c] + [d] == [a, b, c, d];
    assert [] + Bits(a, 6) == Bits(a, 6);
  }

  /** The four digits of a word are its 24 bits. */
  lemma WordIsDigits(n: nat)
    requires n < 0x100_0000
    ensures DigitBits(WordDigits(n)) == Bits(n, 24)
  {
    var b, c := n / 64, n / 64 / 64;
    assert c == n / 0x1000 && c / 64 == n / 0x4_0000;
    SixOff(n, 18);
    SixOff(b, 12);
    SixOff(c, 6);
    LowSix(c / 64);
    FourDigits(c / 64 % 64, c % 64, b % 64, n % 64);
  }

  lemma OneByte(a: byte)
    ensures ByteBits([a]) == Bits(a, 8)
  {
  }

  lemma ThreeBytes(a: byte, b: byte, c: byte)
    ensures ByteBits([a, b, c]) == Bits(a, 8) + Bits(b, 8) + Bits(c, 8)
  {
    OneByte(a);
    OneByte(b);
    OneByte(c);
    ByteBitsAppend([a], [b]);
    ByteBitsAppend([a] + [b], [c]);
    assert [a] + [b] + [c] == [a, b, c];
  }

  lemma WordIsBytes(a: byte, b: byte, c: byte, hi: nat, n: nat)
    requires hi == 0x100 * (a as int) + b && n == 0x100 * hi + c
    ensures Bits(n, 24) == ByteBits([a, b, c])
  {
    assert Pow2(8) == 0x100;
    Join(a, b, 8, 8, 0x100);
    Join(hi, c, 16, 8, 0x100);
    ThreeBytes(a, b, c);
  }

  lemma {:induction false} DigitBitsFront(ss: seq<Sextet>, k: nat)
    requires k <= |ss|
    ensures DigitBits(ss[..k]) == DigitBits(ss)[..6 * k]
    decreases |ss|
  {
    if k == |ss| {
      assert ss[..k] == ss;
    } else {
      var front := ss[..|ss| - 1];
      DigitBitsFront(front, k);
      assert front[..k] == ss[..k];
    }
  }

  /** The bytes of a chunk and the zeros that stand for missing ones. */
  lemma ChunkIsFront(chunk: seq<byte>)
    requires 1 <= |chunk| <= 3
    ensures Word(chunk) < 0x100_0000 && Bits(Word(chunk), 24) == ByteBits(chunk) + ZeroBits(8 * (3 - |chunk|))
  {
    var b: byte, c: byte := (if |chunk| > 1 then chunk[1] else 0), (if |chunk| > 2 then chunk[2] else 0);
    WordIsBytes(chunk[0], b, c, 0x100 * (chunk[0] as int) + b, Word(chunk));
    FillChunk(chunk, [chunk[0], b, c]);
  }

  lemma FillChunk(chunk: seq<byte>, whole: seq<byte>)
    requires |whole| == 3 && |chunk| <= 3 && forall i :: 0 <= i < 3 ==> whole[i] == if i < |chunk| then chunk[i] else 0
    ensures ByteBits(whole) == ByteBits(chunk) + ZeroBits(8 * (3 - |chunk|))
  {
    var filler := whole[|chunk|..];
    assert whole == chunk + filler;
    ByteBitsAppend(chunk, filler);
    ZeroBytes(filler);
  }

  lemma {:induction false} ZeroBytes(bs: seq<byte>)
    requires forall i :: 0 <= i < |bs| ==> bs[i] == 0
    ensures ByteBits(bs) == ZeroBits(8 * |bs|)
    decreases |bs|
  {
    if bs != [] {
      ZeroBytes(bs[..|bs| - 1]);
      BitsOfZero(8);
    }
  }

  /** The digits of a chunk are its bits, with zeros to fill the last digit. */
  lemma ChunkBits(chunk: seq<byte>)
    requires 1 <= |chunk| <= 3
    ensures DigitBits(ChunkDigits(chunk)) == ByteBits(chunk) + ZeroBits(2 * (3 - |chunk|))
  {
    ChunkIsFront(chunk);
    WordIsDigits(Word(chunk));
    DigitBitsFront(WordDigits(Word(chunk)), |chunk| + 1);
    ZeroBitsFront(ByteBits(chunk), 8 * (3 - |chunk|), 2 * (3 - |chunk|), 6 * (|chunk| + 1));
  }

  lemma ZeroBitsFront(bits: seq<bool>, n: nat, m: nat, k: nat)
    requires m <= n && k == |bits| + m
    ensures (bits + ZeroBits(n))[..k] == bits + ZeroBits(m)
  {
  }

  lemma {:induction false} BitsOfZero(n: nat)
    ensures Bits(0, n) == ZeroBits(n)
  {
    if n > 0 { BitsOfZero(n - 1); }
  }

  lemma {:induction false} DigitBitsAppend(a: seq<Sextet>, b: seq<Sextet>)
    ensures DigitBits(a + b) == DigitBits(a) + DigitBits(b)
    decreases |b|
  {
    if b == [] {
      assert a + b == a;
    } else {
      var front, last := b[..|b| - 1], b[|b| - 1];
      DigitBitsAppend(a, front);
      DigitBitsLast(a + front, last);
      assert a + b == a + front + [last];
    }
  }

  lemma {:induction false} ByteBitsAppend(a: seq<byte>, b: seq<byte>)
    ensures ByteBits(a + b) == ByteBits(a) + ByteBits(b)
    decreases |b|
  {
    if b == [] {
      assert a + b == a;
    } else {
      var front, last := b[..|b| - 1], b[|b| - 1];
      ByteBitsAppend(a, front);
      ByteBitsLast(a + front, last);
      assert a + b == a + front + [last];
    }
  }

  /** The digits of an encoding are the data's bits and fewer than eight zeros. */
  lemma {:induction false} EncodedBits(data: seq<byte>) returns (pad: nat)
    ensures pad < 8 && DigitBits(EncodedDigits(data)) == ByteBits(data) + ZeroBits(pad)
  {
    if data == [] {
      pad := 0;
    } else if |data| <= 3 {
      ChunkBits(data);
      pad := 2 * (3 - |data|);
    } else {
      var head, tail := data[..3], data[3..];
      ChunkBits(head);
      pad := EncodedBits(tail);
      DigitBitsAppend(ChunkDigits(head), EncodedDigits(tail));
      ByteBitsAppend(head, tail);
      assert data == head + tail;
      assert ByteBits(head) + ZeroBits(0) == ByteBits(head);
      assert ByteBits(head) + (ByteBits(tail) + ZeroBits(pad)) == ByteBits(head) + ByteBits(tail) + ZeroBits(pad);
    }
  }

  /** Whatever `out` the decoder may answer on an encoding is the data that was encoded. */
  lemma RoundTrip(data: seq<byte>, out: seq<byte>)
    ensures Digits(Encode(data)).Some?
    ensures Spells(Digits(Encode(data)).value, out) <==> out == data
  {
    EncodeDigits(data);
    var pad := EncodedBits(data);
    if Spells(EncodedDigits(data), out) { SpellsUnique(EncodedDigits(data), out, data); }
  }

  // ── which inputs decode ──────────────────────────────────────────────────

  /** The digits are those before the first pad, one for one, and there are none exactly when something there is no digit. */
  lemma {:induction false} DigitsAre(input: seq<byte>, n: nat)
    requires n <= |input| && PAD !in input[..n] && (n == |input| || input[n] == PAD)
    ensures Digits(input).Some? <==> forall i :: 0 <= i < n ==> exists v: Sextet :: Digit(v) == input[i]
    ensures Digits(input).Some? ==> |Digits(input).value| == n && forall i :: 0 <= i < n ==> Digit(Digits(input).value[i]) == input[i]
    decreases n
  {
    if n > 0 {
      assert input[0] == input[..n][0] && input[1..][..n - 1] == input[..n][1..];
      DigitsAre(input[1..], n - 1);
      assert forall i :: 0 <= i < n - 1 ==> input[1..][i] == input[i + 1];
    }
  }
}
