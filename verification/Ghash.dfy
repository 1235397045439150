/** The byte loops `gf_mul` and `ghash_tag` (crates/perun-cli/src/store/account.rs). */
module Ghash {
  import opened Gf128

  type Block = s: seq<bv8> | |s| == 16 witness seq(16, _ => 0)

  /** Bit `r` of a byte, the most significant first. */
  predicate Bit(b: bv8, r: nat)
    decreases r
  {
    if r == 0 then b & 0x80 != 0 else Bit(b << 1, r - 1)
  }

  function Mask(r: nat): bv8 {
    match r
    case 0 => 0x80
    case 1 => 0x40
    case 2 => 0x20
    case 3 => 0x10
    case 4 => 0x08
    case 5 => 0x04
    case 6 => 0x02
    case _ => 0x01
  }

  lemma {:induction false} BitIsMask(b: bv8, r: nat)
    requires r < 8
    ensures Bit(b, r) == (b & Mask(r) != 0)
    decreases r
  {
  }

  /** A block as a field element: bit 0 is the most significant bit of byte 0. */
  function Bits(b: Block): Elem {
    seq(128, i requires 0 <= i < 128 => Bit(b[i / 8], i % 8))
  }

  function ZeroBlock(): Block { seq(16, _ => 0) }

  function XorBlocks(a: Block, b: Block): Block {
    seq(16, j requires 0 <= j < 16 => a[j] ^ b[j])
  }

  /** Every byte takes the low bit of the byte before it, and byte 0 the reduction. */
  function ShiftBlock(v: Block): Block {
    seq(16, j requires 0 <= j < 16 => ShiftByte(v, j))
  }

  function ShiftByte(v: Block, j: nat): bv8
    requires j < 16
  {
    if j > 0 then (v[j] >> 1) | (v[j - 1] << 7)
    else if v[15] & 1 == 1 then (v[0] >> 1) ^ 0xE1 else v[0] >> 1
  }

  lemma {:induction false} BitXor(a: bv8, b: bv8, r: nat)
    ensures Bit(a ^ b, r) == (Bit(a, r) != Bit(b, r))
    decreases r
  {
    if r > 0 {
      assert (a ^ b) << 1 == (a << 1) ^ (b << 1);
      BitXor(a << 1, b << 1, r - 1);
    }
  }

  lemma BitCarry(a: bv8, before: bv8, r: nat)
    requires r < 8
    ensures Bit((a >> 1) | (before << 7), r) == if r > 0 then Bit(a, r - 1) else Bit(before, 7)
  {
    BitIsMask((a >> 1) | (before << 7), r);
    BitIsMask(before, 7);
    if r > 0 { BitIsMask(a, r - 1); }
  }

  lemma BitReduce(a: bv8, r: nat)
    requires r < 8
    ensures Bit(a >> 1, r) == (r > 0 && Bit(a, r - 1))
    ensures Bit((a >> 1) ^ 0xE1, r) == ((r > 0 && Bit(a, r - 1)) != Reduces(r))
  {
    BitIsMask(a >> 1, r);
    BitIsMask((a >> 1) ^ 0xE1, r);
    if r > 0 { BitIsMask(a, r - 1); }
  }

  lemma LowBit(a: bv8)
    ensures Bit(a, 7) == (a & 1 == 1)
  {
  }

  lemma BitByShift(a: bv8, r: nat)
    requires r < 8
    ensures ((a >> (7 - r)) & 1 == 1) == Bit(a, r)
  {
    BitIsMask(a, r);
  }

  lemma {:induction false} NoBit(r: nat)
    ensures !Bit(0, r)
    decreases r
  {
    if r > 0 { NoBit(r - 1); }
  }

  lemma BitsZero()
    ensures Bits(ZeroBlock()) == Zero()
  {
    forall i | 0 <= i < 128 ensures Bits(ZeroBlock())[i] == Zero()[i] {
      NoBit(i % 8);
    }
  }

  lemma BitsXor(a: Block, b: Block)
    ensures Bits(XorBlocks(a, b)) == Xor(Bits(a), Bits(b))
  {
    forall i | 0 <= i < 128 ensures Bits(XorBlocks(a, b))[i] == Xor(Bits(a), Bits(b))[i] {
      BitXor(a[i / 8], b[i / 8], i % 8);
    }
  }

  /** The byte shift with its carry and reduction is multiplication by the generator. */
  lemma BitsShift(v: Block)
    ensures Bits(ShiftBlock(v)) == MulX(Bits(v))
  {
    forall i | 0 <= i < 128 ensures Bits(ShiftBlock(v))[i] == MulX(Bits(v))[i] {
      ShiftedBit(v, i);
    }
  }

  /** The bit before bit `i` of a block. */
  lemma BitBefore(v: Block, j: nat, r: nat)
    requires j < 16 && r < 8 && 0 < 8 * j + r
    ensures Bits(v)[8 * j + r - 1] == if r > 0 then Bit(v[j], r - 1) else Bit(v[j - 1], 7)
  {
  }

  lemma FirstByte(v: Block, r: nat)
    requires r < 8
    ensures Bit(ShiftByte(v, 0), r) == ((r > 0 && Bit(v[0], r - 1)) != (Bit(v[15], 7) && Reduces(r)))
  {
    BitReduce(v[0], r);
    LowBit(v[15]);
  }

  lemma FirstBits(v: Block, r: nat)
    requires r < 8
    ensures MulX(Bits(v))[r] == ((r > 0 && Bit(v[0], r - 1)) != (Bit(v[15], 7) && Reduces(r)))
  {
  }

  lemma FirstByteShift(v: Block, r: nat)
    requires r < 8
    ensures Bit(ShiftByte(v, 0), r) == MulX(Bits(v))[r]
  {
    FirstByte(v, r);
    FirstBits(v, r);
  }

  lemma LaterByteShift(v: Block, j: nat, r: nat)
    requires 0 < j < 16 && r < 8
    ensures Bit(ShiftByte(v, j), r) == MulX(Bits(v))[8 * j + r]
  {
    BitCarry(v[j], v[j - 1], r);
    BitBefore(v, j, r);
  }

  lemma ShiftedBit(v: Block, i: nat)
    requires i < 128
    ensures Bit(ShiftBlock(v)[i / 8], i % 8) == MulX(Bits(v))[i]
  {
    if i < 8 { FirstByteShift(v, i); } else { LaterByteShift(v, i / 8, i % 8); }
  }

  method XorInto(dst: array<bv8>, src: Block)
    requires dst.Length == 16
    modifies dst
    ensures dst[..] == XorBlocks(old(dst[..]), src) && Bits(dst[..]) == Xor(old(Bits(dst[..])), Bits(src))
  {
    BitsXor(dst[..], src);
    for j := 0 to 16
      invariant forall k :: 0 <= k < 16 ==> dst[k] == if k < j then old(dst[k]) ^ src[k] else old(dst[k])
    {
      dst[j] := dst[j] ^ src[j];
    }
  }

  method ShiftRight(v: array<bv8>)
    requires v.Length == 16
    modifies v
    ensures v[..] == ShiftBlock(old(v[..])) && Bits(v[..]) == MulX(old(Bits(v[..])))
  {
    var low := v[15] & 1;
    ghost var was := v[..];
    for j := 16 downto 1
      invariant forall k :: 0 <= k < 16 ==> v[k] == if j <= k then ShiftByte(was, k) else was[k]
    {
      v[j] := (v[j] >> 1) | (v[j - 1] << 7);
    }
    v[0] := v[0] >> 1;
    if low == 1 {
      v[0] := v[0] ^ 0xE1;
    }
    assert v[..] == ShiftBlock(was);
    BitsShift(was);
  }

  method TestBit(x: Block, i: nat) returns (bit: bool)
    requires i < 128
    ensures bit == Bits(x)[i]
  {
    bit := (x[i / 8] >> (7 - i % 8)) & 1 == 1;
    BitByShift(x[i / 8], i % 8);
  }

  /** One round of the product: add `v` when the bit is set, and shift it. */
  method MulStep(z: array<bv8>, v: array<bv8>, bit: bool)
    requires z.Length == 16 && v.Length == 16 && z != v
    modifies z, v
    ensures Bits(z[..]) == if bit then Xor(old(Bits(z[..])), old(Bits(v[..]))) else old(Bits(z[..]))
    ensures Bits(v[..]) == MulX(old(Bits(v[..])))
  {
    if bit {
      XorInto(z, v[..]);
    }
    ShiftRight(v);
  }

  /** A block passed by value, in an array of its own. */
  method Copied(b: Block) returns (a: array<bv8>)
    ensures fresh(a) && a.Length == 16 && a[..] == b
  {
    a := new bv8[16](j requires 0 <= j < 16 => b[j]);
  }

  /** The sum so far and what is still to come give the whole product. */
  lemma Accumulate(z: Elem, x: Elem, v: Elem, i: nat, product: Elem)
    requires i < 128 && Xor(z, MulFrom(x, v, i)) == product
    ensures Xor(if x[i] then Xor(z, v) else z, MulFrom(x, MulX(v), i + 1)) == product
  {
  }

  /** The shift-and-reduce loop multiplies in the field. */
  method GfMul(x: Block, y: Block) returns (product: Block)
    ensures Bits(product) == Mul(Bits(x), Bits(y))
  {
    var z := Copied(ZeroBlock());
    var v := Copied(y);
    BitsZero();
    ghost var xs, whole := Bits(x), Mul(Bits(x), Bits(y));
    XorLaws(whole, whole, whole);
    for i := 0 to 128
      invariant fresh(z) && fresh(v) && z != v && z.Length == 16 && v.Length == 16
      invariant Xor(Bits(z[..]), MulFrom(xs, Bits(v[..]), i)) == whole
    {
      Accumulate(Bits(z[..]), xs, Bits(v[..]), i, whole);
      var bit := TestBit(x, i);
      MulStep(z, v, bit);
    }
    product := z[..];
    XorLaws(Bits(product), whole, whole);
  }

  // ── ghash_tag ────────────────────────────────────────────────────────────

  /** `data` cut into blocks, the last one padded with zeros. */
  function Blocks(data: seq<bv8>): (bs: seq<Block>)
    ensures |bs| == (|data| + 15) / 16
  {
    if data == [] then []
    else if |data| <= 16 then [data + seq(16 - |data|, _ => 0)]
    else [data[..16]] + Blocks(data[16..])
  }

  /** The big-endian bytes of the low `8 * n` bits of `v`. */
  function BigEndian(v: nat, n: nat): (bs: seq<bv8>)
    ensures |bs| == n
  {
    if n == 0 then [] else BigEndian(v / 0x100, n - 1) + [(v % 0x100) as bv8]
  }

  /** Both bit lengths, as 64-bit big-endian numbers. */
  function LengthBlock(aad: seq<bv8>, ciphertext: seq<bv8>): Block {
    BigEndian(|aad| * 8, 8) + BigEndian(|ciphertext| * 8, 8)
  }

  function Elements(blocks: seq<Block>): seq<Elem> {
    seq(|blocks|, i requires 0 <= i < |blocks| => Bits(blocks[i]))
  }

  /** Everything the tag authenticates: both padded strings and the length block. */
  function HashedBlocks(aad: seq<bv8>, ciphertext: seq<bv8>): seq<Block> {
    Blocks(aad) + Blocks(ciphertext) + [LengthBlock(aad, ciphertext)]
  }

  lemma {:induction false} BlockAt(data: seq<bv8>, k: nat)
    requires 16 * k < |data|
    ensures Blocks(data)[k] == if 16 * k + 16 <= |data| then data[16 * k..16 * k + 16] else data[16 * k..] + seq(16 * k + 16 - |data|, _ => 0)
  {
    if k > 0 {
      BlockAt(data[16..], k - 1);
      if 16 * k + 16 <= |data| {
        assert data[16..][16 * (k - 1)..16 * (k - 1) + 16] == data[16 * k..16 * k + 16];
      } else {
        assert data[16..][16 * (k - 1)..] == data[16 * k..];
      }
    } else if |data| == 16 {
      assert data[0..16] == data + seq(0, _ => 0);
    }
  }

  /** Absorbing one more block, on elements. */
  lemma ElementsNext(h: Elem, x: Elem, blocks: seq<Block>, k: nat)
    requires k < |blocks|
    ensures Horner(h, x, Elements(blocks[..k + 1])) == Mul(Xor(Horner(h, x, Elements(blocks[..k])), Bits(blocks[k])), h)
  {
    assert Elements(blocks[..k + 1]) == Elements(blocks[..k]) + [Bits(blocks[k])];
    HornerLast(h, x, Elements(blocks[..k]), Bits(blocks[k]));
  }

  lemma {:induction false} HornerAppend(h: Elem, x: Elem, first: seq<Elem>, second: seq<Elem>)
    ensures Horner(h, x, first + second) == Horner(h, Horner(h, x, first), second)
    decreases |second|
  {
    if second == [] {
      assert first + second == first;
    } else {
      var front, last := second[..|second| - 1], second[|second| - 1];
      assert first + second == (first + front) + [last] && second == front + [last];
      HornerAppend(h, x, first, front);
      HornerLast(h, x, first + front, last);
      HornerLast(h, Horner(h, x, first), front, last);
    }
  }

  /** Add a block in and multiply by the hash key. */
  method AbsorbBlock(x0: Block, h: Block, block: Block) returns (x: Block)
    ensures Bits(x) == Mul(Xor(Bits(x0), Bits(block)), Bits(h))
  {
    var acc := Copied(x0);
    XorInto(acc, block);
    x := GfMul(acc[..], h);
  }

  lemma TakeBlock(data: seq<bv8>, k: nat, offset: nat, take: nat, block: Block)
    requires offset == 16 * k < |data| && take == (if |data| - offset < 16 then |data| - offset else 16)
    requires block == data[offset..offset + take] + seq(16 - take, _ => 0)
    ensures k < |Blocks(data)| && block == Blocks(data)[k]
  {
    BlockAt(data, k);
  }

  method Absorb(x0: Block, h: Block, data: seq<bv8>) returns (x: Block)
    ensures Bits(x) == Horner(Bits(h), Bits(x0), Elements(Blocks(data)))
  {
    x := x0;
    var offset := 0;
    ghost var k, blocks := 0, Blocks(data);
    assert Elements(blocks[..0]) == [];
    while offset < |data|
      invariant offset == 16 * k && k <= |blocks|
      invariant Bits(x) == Horner(Bits(h), Bits(x0), Elements(blocks[..k]))
    {
      var take := if |data| - offset < 16 then |data| - offset else 16;
      var block := data[offset..offset + take] + seq(16 - take, _ => 0);
      TakeBlock(data, k, offset, take, block);
      ElementsNext(Bits(h), Bits(x0), blocks, k);
      x := AbsorbBlock(x, h, block);
      offset := offset + 16;
      k := k + 1;
    }
    assert blocks[..k] == blocks;
  }

  /** The tag: the hash polynomial at the hash key over all padded blocks, masked by `tagBase`. */
  method GhashTag(cipher: Block -> Block, tagBase: Block, ciphertext: seq<bv8>, aad: seq<bv8>) returns (tag: Block)
    ensures Bits(tag) == Xor(Polynomial(Bits(cipher(ZeroBlock())), Elements(HashedBlocks(aad, ciphertext))), Bits(tagBase))
  {
    var h := cipher(ZeroBlock());
    BitsZero();
    var x := Absorb(ZeroBlock(), h, aad);
    x := Absorb(x, h, ciphertext);
    var last := LengthBlock(aad, ciphertext);
    BitsXor(x, last);
    x := GfMul(XorBlocks(x, last), h);
    TagIsPolynomial(Bits(h), aad, ciphertext);
    BitsXor(x, tagBase);
    tag := XorBlocks(x, tagBase);
  }

  lemma HashedElements(aad: seq<bv8>, ciphertext: seq<bv8>)
    ensures Elements(HashedBlocks(aad, ciphertext))
         == Elements(Blocks(aad)) + Elements(Blocks(ciphertext)) + [Bits(LengthBlock(aad, ciphertext))]
  {
  }

  lemma TagIsPolynomial(h: Elem, aad: seq<bv8>, ciphertext: seq<bv8>)
    ensures Mul(Xor(Horner(h, Horner(h, Zero(), Elements(Blocks(aad))), Elements(Blocks(ciphertext))), Bits(LengthBlock(aad, ciphertext))), h)
         == Polynomial(h, Elements(HashedBlocks(aad, ciphertext)))
  {
    var first, second, last := Elements(Blocks(aad)), Elements(Blocks(ciphertext)), Bits(LengthBlock(aad, ciphertext));
    HashedElements(aad, ciphertext);
    HornerAppend(h, Zero(), first, second);
    HornerLast(h, Zero(), first + second, last);
    HornerIsPolynomial(h, Elements(HashedBlocks(aad, ciphertext)));
  }
}
