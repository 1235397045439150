/** LEB128 numbers (section 7.6 of DWARF version 4) and the two readers of macho.rs. */
module Leb {
  import opened Bytes
  import opened Wrappers

  datatype LebError = Unterminated

  /** A decoded number and how many bytes it took. */
  datatype Read<T> = Read(value: T, used: nat)

  function Pow128(n: nat): (p: nat)
    ensures p > 0
  {
    if n == 0 then 1 else 0x80 * Pow128(n - 1)
  }

  /** Bytes up to and including the first with a clear top bit. */
  function LebLength(t: seq<byte>): (n: Option<nat>)
    ensures n.Some? ==> 1 <= n.value <= |t|
  {
    if t == [] then None
    else if t[0] < 0x80 then Some(1)
    else match LebLength(t[1..]) case None => None case Some(n) => Some(n + 1)
  }

  /** Seven bits a byte, least significant first. */
  function LebValue(bs: seq<byte>): nat {
    if bs == [] then 0 else bs[0] % 0x80 + 0x80 * LebValue(bs[1..])
  }

  function SlebValue(bs: seq<byte>): int {
    if bs != [] && bs[|bs| - 1] % 0x80 >= 0x40 then LebValue(bs) - Pow128(|bs|) else LebValue(bs)
  }

  function Signed64(v: u64): int {
    if v < 0x8000_0000_0000_0000 then v else v - 0x1_0000_0000_0000_0000
  }

  /** What a reader must return: at most ten bytes, the value cut to 64 bits. */
  function ReadUleb(t: seq<byte>): (r: Result<Read<u64>, LebError>)
    ensures r.Success? ==> 1 <= r.value.used <= |t|
  {
    match LebLength(t)
    case None => Failure(Unterminated)
    case Some(n) => if n > 10 then Failure(Unterminated) else Success(Read(Wrap64(LebValue(t[..n])), n))
  }

  function ReadSleb(t: seq<byte>): (r: Result<Read<int>, LebError>)
    ensures r.Success? ==> 1 <= r.value.used <= |t|
  {
    match LebLength(t)
    case None => Failure(Unterminated)
    case Some(n) => if n > 10 then Failure(Unterminated) else Success(Read(Signed64(Wrap64(SlebValue(t[..n]))), n))
  }

  // ── encoders ─────────────────────────────────────────────────────────────

  function Uleb(v: nat): (bs: seq<byte>)
    ensures bs != []
  {
    if v < 0x80 then [v] else [0x80 + v % 0x80] + Uleb(v / 0x80)
  }

  function Sleb(v: int): (bs: seq<byte>)
    ensures bs != []
    decreases if v < 0 then -v else v
  {
    if -0x40 <= v < 0x40 then [v % 0x80] else [0x80 + v % 0x80] + Sleb(v / 0x80)
  }

  lemma {:induction false} UlebParses(v: nat, rest: seq<byte>)
    ensures LebLength(Uleb(v) + rest) == Some(|Uleb(v)|) && LebValue(Uleb(v)) == v
  {
    var bs := Uleb(v);
    if v < 0x80 {
      assert bs[1..] == [];
    } else {
      UlebParses(v / 0x80, rest);
      assert bs[1..] == Uleb(v / 0x80) && (bs + rest)[1..] == Uleb(v / 0x80) + rest;
    }
  }

  lemma {:induction false} UlebLength(v: nat, n: nat)
    requires v < Pow128(n) && n > 0
    ensures |Uleb(v)| <= n
    decreases n
  {
    assert Pow128(n) == 0x80 * Pow128(n - 1);
    if n > 1 && v >= 0x80 {
      UlebLength(v / 0x80, n - 1);
    }
  }

  /** Reading undoes encoding, for every unsigned 64-bit number. */
  lemma UlebRoundTrip(v: u64, rest: seq<byte>)
    ensures ReadUleb(Uleb(v) + rest) == Success(Read(v, |Uleb(v)|)) && |Uleb(v)| <= 10
  {
    UlebParses(v, rest);
    PowerTable();
    UlebLength(v, 10);
    assert (Uleb(v) + rest)[..|Uleb(v)|] == Uleb(v);
  }

  lemma {:induction false} PowersAgree(n: nat)
    ensures Pow2(7 * n) == Pow128(n)
  {
    if n > 0 {
      var m := 7 * (n - 1);
      PowersAgree(n - 1);
      assert Pow2(m + 7) == 2 * Pow2(m + 6) && Pow2(m + 6) == 2 * Pow2(m + 5) && Pow2(m + 5) == 2 * Pow2(m + 4);
      assert Pow2(m + 4) == 2 * Pow2(m + 3) && Pow2(m + 3) == 2 * Pow2(m + 2) && Pow2(m + 2) == 2 * Pow2(m + 1);
    }
  }

  /** The powers a 64-bit number needs. */
  lemma PowerTable()
    ensures Pow128(0) == 1 && Pow128(1) == 0x80 && Pow128(2) == 0x4000 && Pow128(3) == 0x20_0000
    ensures Pow128(4) == 0x1000_0000 && Pow128(5) == 0x8_0000_0000 && Pow128(6) == 0x400_0000_0000
    ensures Pow128(7) == 0x2_0000_0000_0000 && Pow128(8) == 0x100_0000_0000_0000
    ensures Pow128(9) == 0x8000_0000_0000_0000 && Pow128(10) == 0x40_0000_0000_0000_0000
  {
  }

  lemma {:induction false} SlebMeans(v: int)
    ensures SlebValue(Sleb(v)) == v
    decreases if v < 0 then -v else v
  {
    if -0x40 <= v < 0x40 {
      SlebShort(v);
    } else {
      SlebMeans(v / 0x80);
      SlebFirst(0x80 + v % 0x80, Sleb(v / 0x80));
    }
  }

  lemma {:induction false} SlebEnds(v: int, rest: seq<byte>)
    ensures LebLength(Sleb(v) + rest) == Some(|Sleb(v)|)
    decreases if v < 0 then -v else v
  {
    if !(-0x40 <= v < 0x40) {
      SlebEnds(v / 0x80, rest);
      assert (Sleb(v) + rest)[1..] == Sleb(v / 0x80) + rest;
    }
  }

  lemma SlebShort(v: int)
    requires -0x40 <= v < 0x40
    ensures SlebValue([v % 0x80]) == v
  {
    var bs: seq<byte> := [v % 0x80];
    assert bs[1..] == [] && LebValue(bs) == v % 0x80;
    assert Pow128(|bs|) == 0x80 * Pow128(|bs| - 1);
  }

  lemma SlebFirst(b: byte, tail: seq<byte>)
    requires tail != []
    ensures SlebValue([b] + tail) == b % 0x80 + 0x80 * SlebValue(tail)
  {
  }

  lemma Floor(v: int, h: nat)
    requires 0 - 0x80 * h <= v < 0x80 * h
    ensures 0 - h <= v / 0x80 < h
  {
  }

  lemma {:induction false} SlebLength(v: int, n: nat)
    requires n > 0 && 0 - Pow128(n) <= 2 * v < Pow128(n)
    ensures |Sleb(v)| <= n
    decreases n
  {
    var p := Pow128(n - 1);
    assert Pow128(n) == 0x80 * p;
    if n > 1 && !(-0x40 <= v < 0x40) {
      assert p == 0x80 * Pow128(n - 2);
      Floor(v, p / 2);
      SlebLength(v / 0x80, n - 1);
    }
  }

  predicate IsI64(v: int) { -0x8000_0000_0000_0000 <= v < 0x8000_0000_0000_0000 }

  lemma SignedRoundTrip(v: int)
    requires IsI64(v)
    ensures Signed64(Wrap64(v)) == v
  {
  }

  /** Reading undoes encoding, for every signed 64-bit number. */
  lemma SlebRoundTrip(v: int, rest: seq<byte>)
    requires IsI64(v)
    ensures ReadSleb(Sleb(v) + rest) == Success(Read(v, |Sleb(v)|)) && |Sleb(v)| <= 10
  {
    SlebMeans(v);
    SlebEnds(v, rest);
    SignedRoundTrip(v);
    assert 0 - Pow128(10) <= 2 * v < Pow128(10) by { PowerTable(); }
    SlebLength(v, 10);
    assert (Sleb(v) + rest)[..|Sleb(v)|] == Sleb(v);
  }

  // ── the readers ──────────────────────────────────────────────────────────

  /** Bitwise or of two natural numbers. */
  function Or(a: nat, b: nat): nat {
    if a == 0 && b == 0 then 0
    else (if a % 2 == 1 || b % 2 == 1 then 1 else 0) + 2 * Or(a / 2, b / 2)
  }

  lemma {:induction false} OrIdentity(b: nat)
    ensures Or(0, b) == b
  {
    if b > 0 { OrIdentity(b / 2); }
  }

  /** Numbers with no common bit or to their sum. */
  lemma {:induction false} OrIsSum(a: nat, m: nat, k: nat)
    requires a < Pow2(k)
    ensures Or(a, m * Pow2(k)) == a + m * Pow2(k)
    decreases k
  {
    if k == 0 {
      OrIdentity(m);
    } else {
      var half := m * Pow2(k - 1);
      assert m * Pow2(k) == 2 * half;
      OrIsSum(a / 2, m, k - 1);
    }
  }

  lemma {:induction false} LebValueLast(bs: seq<byte>, b: byte)
    ensures LebValue(bs + [b]) == LebValue(bs) + b % 0x80 * Pow128(|bs|)
    decreases |bs|
  {
    if bs == [] {
      assert (bs + [b])[1..] == [] && bs + [b] == [b];
    } else {
      LebValueLast(bs[1..], b);
      assert (bs + [b])[1..] == bs[1..] + [b];
      var x, p := b % 0x80, Pow128(|bs| - 1);
      assert x * (0x80 * p) == 0x80 * (x * p);
    }
  }

  lemma {:induction false} LebValueBound(bs: seq<byte>)
    ensures LebValue(bs) < Pow128(|bs|)
  {
    if bs != [] {
      LebValueBound(bs[1..]);
    }
  }

  /** The same, for a multiple given as a word. */
  lemma OrWord(a: nat, y: u64, m: nat, k: nat)
    requires a < Pow128(k) && y == m * Pow128(k)
    ensures Or(a, y) == a + y
  {
    PowersAgree(k);
    OrIsSum(a, m, 7 * k);
  }

  /** Or-ing `x` in at bit `7 k` of a word, with what falls off the top gone. */
  lemma OrSeven(a: nat, x: nat, k: nat, y: u64)
    requires k <= 9 && a < Pow128(k) && x < 0x80 && y == Wrap64(x * Pow128(k))
    ensures Or(a, y) == Wrap64(a + x * Pow128(k))
  {
    Fits(a, x, k);
    OrWord(a, y, if k == 9 then x % 2 else x, k);
  }

  lemma TopBit(a: nat, x: nat)
    requires a < 0x8000_0000_0000_0000
    ensures Wrap64(a + x * 0x8000_0000_0000_0000) == a + x % 2 * 0x8000_0000_0000_0000
  {
  }

  lemma Fits(a: nat, x: nat, k: nat)
    requires k <= 9 && a < Pow128(k) && x < 0x80
    ensures k < 9 ==> a + x * Pow128(k) < 0x8000_0000_0000_0000 && Wrap64(x * Pow128(k)) == x * Pow128(k)
    ensures k == 9 ==> Wrap64(x * Pow128(k)) == x % 2 * Pow128(k)
    ensures Wrap64(a + x * Pow128(k)) == a + Wrap64(x * Pow128(k))
  {
    PowerTable();
    if k == 9 {
      TopBit(0, x);
      TopBit(a, x);
    } else {
      LowBits(a, x, k);
    }
  }

  lemma LowBits(a: nat, x: nat, k: nat)
    requires k < 9 && a < Pow128(k) && x < 0x80
    ensures a + x * Pow128(k) < 0x8000_0000_0000_0000
  {
    PowerTable();
  }

  /** `result |= (b & 0x7f) << shift`, after the bytes `bs`. */
  method AddByte(result: u64, b: byte, shift: nat, ghost bs: seq<byte>) returns (r: u64)
    requires |bs| <= 9 && shift == 7 * |bs| && result == LebValue(bs)
    ensures r == Wrap64(LebValue(bs + [b]))
    ensures |bs| < 9 ==> r == LebValue(bs + [b]) < 0x8000_0000_0000_0000
  {
    PowersAgree(|bs|);
    var shifted := Wrap64(b % 0x80 * Pow2(shift));
    ghost var k, x := |bs|, b % 0x80;
    LebValueLast(bs, b);
    LebValueBound(bs);
    Fits(result, x, k);
    OrSeven(result, x, k, shifted);
    r := Or(result, shifted);
  }

  /** A number still open after `k` bytes ends where the rest of it ends. */
  lemma {:induction false} LebLengthSkips(t: seq<byte>, k: nat)
    requires k <= |t| && forall i :: 0 <= i < k ==> t[i] >= 0x80
    ensures LebLength(t) == match LebLength(t[k..]) case None => None case Some(n) => Some(n + k)
    decreases k
  {
    if k > 0 {
      LebLengthSkips(t[1..], k - 1);
      assert t[1..][k - 1..] == t[k..];
    }
  }

  /** `read_uleb`; the new offset is `p` plus the bytes used. */
  method ReadUlebAt(d: seq<byte>, p: nat) returns (r: Result<Read<u64>, LebError>)
    requires p <= |d|
    ensures r == ReadUleb(d[p..])
  {
    var result: u64, shift, q := 0, 0, p;
    ghost var t := d[p..];
    while true
      invariant p <= q <= |d| && q - p <= 9 && shift == 7 * (q - p)
      invariant forall i :: 0 <= i < q - p ==> t[i] >= 0x80
      invariant result == LebValue(t[..q - p]) < 0x8000_0000_0000_0000
      decreases |d| - q
    {
      ghost var k := q - p;
      LebLengthSkips(t, k);
      if q >= |d| {
        return Failure(Unterminated);
      }
      var b := d[q];
      assert t[k..][0] == b && t[..k] + [b] == t[..k + 1];
      q := q + 1;
      result := AddByte(result, b, shift, t[..k]);
      if b < 0x80 {
        break;
      }
      shift := shift + 7;
      if shift > 63 {
        LebLengthSkips(t, k + 1);
        return Failure(Unterminated);
      }
    }
    r := Success(Read(result, q - p));
  }

  /** Or-ing in a run of ones from bit `7 k` up subtracts `128^k` modulo `2^64`. */
  lemma SignExtension(a: nat, k: nat, ones: u64)
    requires k < 10 && a < Pow128(k) && ones == Wrap64(0 - Pow128(k))
    ensures Or(a, ones) == Wrap64(a - Pow128(k))
  {
    var m := OnesAbove(k);
    OrWord(a, ones, m, k);
    Borrow(a, Pow128(k));
  }

  lemma Borrow(a: nat, p: nat)
    requires a < p < 0x1_0000_0000_0000_0000
    ensures Wrap64(0 - p) == 0x1_0000_0000_0000_0000 - p
    ensures Wrap64(a - p) == a + 0x1_0000_0000_0000_0000 - p
  {
  }

  lemma OnesAbove(k: nat) returns (m: nat)
    requires k < 10
    ensures m * Pow128(k) == Wrap64(0 - Pow128(k)) == 0x1_0000_0000_0000_0000 - Pow128(k) && Pow128(k) < 0x1_0000_0000_0000_0000
  {
    PowerTable();
    m := 0x1_0000_0000_0000_0000 / Pow128(k) - 1;
  }

  /** `read_sleb`; the accumulator is kept as its unsigned bit pattern. */
  method ReadSlebAt(d: seq<byte>, p: nat) returns (r: Result<Read<int>, LebError>)
    requires p <= |d|
    ensures r == ReadSleb(d[p..])
  {
    var result: u64, shift, q := 0, 0, p;
    ghost var t := d[p..];
    while true
      invariant p <= q <= |d| && q - p <= 9 && shift == 7 * (q - p)
      invariant forall i :: 0 <= i < q - p ==> t[i] >= 0x80
      invariant result == LebValue(t[..q - p]) < 0x8000_0000_0000_0000
      decreases |d| - q
    {
      ghost var k := q - p;
      LebLengthSkips(t, k);
      if q >= |d| {
        return Failure(Unterminated);
      }
      var b := d[q];
      assert t[k..][0] == b && t[..k] + [b] == t[..k + 1];
      q := q + 1;
      result := AddByte(result, b, shift, t[..k]);
      shift := shift + 7;
      if b < 0x80 {
        result := ExtendSign(result, b, shift, t[..k + 1]);
        break;
      }
      if shift > 63 {
        LebLengthSkips(t, k + 1);
        return Failure(Unterminated);
      }
    }
    r := Success(Read(Signed64(result), q - p));
  }

  /** The reader's sign step: needed below 64 bits, and no difference above. */
  method ExtendSign(result: u64, last: byte, shift: nat, ghost bs: seq<byte>) returns (r: u64)
    requires 1 <= |bs| <= 10 && shift == 7 * |bs| && last == bs[|bs| - 1] && result == Wrap64(LebValue(bs))
    ensures r == Wrap64(SlebValue(bs))
  {
    r := result;
    LebValueBound(bs);
    PowersAgree(|bs|);
    if shift < 64 {
      Below64(LebValue(bs), |bs|);
      if last % 0x80 >= 0x40 {
        var ones := Wrap64(0 - Pow2(shift));
        SignExtension(LebValue(bs), |bs|, ones);
        r := Or(result, ones);
      }
    } else {
      Above64(LebValue(bs), |bs|);
    }
  }

  lemma Below64(v: nat, k: nat)
    requires k < 10 && v < Pow128(k)
    ensures Wrap64(v) == v
  {
    PowerTable();
  }

  lemma Above64(v: nat, k: nat)
    requires k == 10
    ensures Wrap64(v - Pow128(k)) == Wrap64(v)
  {
    PowerTable();
  }
}
