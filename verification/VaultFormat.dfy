/**
 * The account file spelled out byte by byte: every constant, length and position of the format and of
 * Galois/Counter mode (NIST SP 800-38D), against the functions the file is proved to be made with.
 */
module VaultFormat {
  import opened Gf128
  import opened Ghash
  import opened Vault
  import opened Wrappers
  import B = Bytes

  // ── big-endian numbers ───────────────────────────────────────────────────

  /** The base-256 digit of `v` with weight `256^k`. */
  function Digit(v: nat, k: nat): (d: nat)
    ensures d < 0x100
  {
    if k == 0 then v % 0x100 else Digit(v / 0x100, k - 1)
  }

  /** `bs` are the last base-256 digits of `v`, the most significant first. */
  predicate IsBig(bs: seq<bv8>, v: nat) { forall j :: 0 <= j < |bs| ==> bs[j] == Digit(v, |bs| - 1 - j) as bv8 }

  lemma {:induction false} BigDigit(v: nat, n: nat, j: nat)
    requires j < n
    ensures BigEndian(v, n)[j] == Digit(v, n - 1 - j) as bv8
  {
    if j < n - 1 { BigDigit(v / 0x100, n - 1, j); }
  }

  lemma BigIs(v: nat, n: nat)
    ensures IsBig(BigEndian(v, n), v)
  {
    forall j | 0 <= j < n ensures BigEndian(v, n)[j] == Digit(v, n - 1 - j) as bv8 { BigDigit(v, n, j); }
  }

  lemma OneBig(a: seq<bv8>, b: seq<bv8>, v: nat)
    requires |a| == |b| && IsBig(a, v) && IsBig(b, v)
    ensures a == b
  {
  }

  // ── the keystream ────────────────────────────────────────────────────────

  /** `c` is the IV followed by a 32-bit big-endian counter. */
  predicate IsCounter(c: Block, iv: Iv, index: nat) { c[..12] == iv && IsBig(c[12..], index) }

  lemma CounterIs(c: Block, iv: Iv, index: B.u32)
    requires IsCounter(c, iv, index)
    ensures c == CounterBlock(iv, index)
  {
    BigIs(index, 4);
    OneBig(c[12..], BigEndian(index, 4), index);
    assert c == c[..12] + c[12..];
  }

  /** Byte `i` of the ciphertext: the text's byte under byte `i % 16` of the enciphered counter `2 + i / 16`. */
  lemma StreamByte(cipher: Block -> Block, iv: Iv, data: seq<bv8>, i: nat, c: Block)
    requires i < |data| && IsCounter(c, iv, (2 + i / 16) % 0x1_0000_0000)
    ensures Ctr(cipher, iv, data, 2)[i] == data[i] ^ cipher(c)[i % 16]
  {
    var n := (2 + i / 16) % 0x1_0000_0000;
    CounterIs(c, iv, n);
    StreamFrom(cipher, iv, data, 2, i / 16, i % 16, i, n, cipher(c));
  }

  lemma {:induction false} StreamFrom(cipher: Block -> Block, iv: Iv, data: seq<bv8>, index: B.u32, k: nat, r: nat, i: nat, n: B.u32, stream: Block)
    requires r < 16 && i == 16 * k + r < |data| && n == (index + k) % 0x1_0000_0000 && stream == cipher(CounterBlock(iv, n))
    ensures Ctr(cipher, iv, data, index)[i] == data[i] ^ stream[r]
    decreases k
  {
    if k == 0 {
      SameCounter(index, n);
      FirstChunk(cipher, iv, data, index, i, stream);
    } else {
      var rest, next := data[16..], B.Wrap32(index + 1);
      NextCounter(index, k, n);
      LaterChunk(cipher, iv, data, index, i, rest, next);
      StreamFrom(cipher, iv, rest, next, k - 1, r, i - 16, n, stream);
    }
  }

  lemma SameCounter(index: B.u32, n: B.u32)
    requires n == (index + 0) % 0x1_0000_0000
    ensures n == index
  {
  }

  lemma NextCounter(index: B.u32, k: nat, n: B.u32)
    requires k > 0 && n == (index + k) % 0x1_0000_0000
    ensures n == (B.Wrap32(index + 1) + (k - 1)) % 0x1_0000_0000
  {
  }

  lemma FirstChunk(cipher: Block -> Block, iv: Iv, data: seq<bv8>, index: B.u32, i: nat, stream: Block)
    requires i < |data| && i < 16 && stream == cipher(CounterBlock(iv, index))
    ensures Ctr(cipher, iv, data, index)[i] == data[i] ^ stream[i]
  {
  }

  lemma LaterChunk(cipher: Block -> Block, iv: Iv, data: seq<bv8>, index: B.u32, i: nat, rest: seq<bv8>, next: B.u32)
    requires 16 <= i < |data| && rest == data[16..] && next == B.Wrap32(index + 1)
    ensures Ctr(cipher, iv, data, index)[i] == Ctr(cipher, iv, rest, next)[i - 16] && rest[i - 16] == data[i]
  {
  }

  // ── what the tag hashes ──────────────────────────────────────────────────

  function BlockCount(n: nat): nat { (n + 15) / 16 }

  /** Byte `j` of block `k` of zero-padded data. */
  function Padded(data: seq<bv8>, k: nat, j: nat): bv8 { if 16 * k + j < |data| then data[16 * k + j] else 0 }

  lemma PaddedByte(data: seq<bv8>, k: nat, j: nat)
    requires k < BlockCount(|data|) && j < 16
    ensures k < |Blocks(data)| && Blocks(data)[k][j] == Padded(data, k, j)
  {
    BlockAt(data, k);
  }

  /** The blocks hashed are the padded associated data, the padded ciphertext, and one block more. */
  lemma HashedByte(aad: seq<bv8>, ciphertext: seq<bv8>, k: nat, j: nat)
    requires j < 16
    ensures var blocks, a, c := HashedBlocks(aad, ciphertext), BlockCount(|aad|), BlockCount(|ciphertext|);
            && |blocks| == a + c + 1
            && (k < a ==> blocks[k][j] == Padded(aad, k, j))
            && (a <= k < a + c ==> blocks[k][j] == Padded(ciphertext, k - a, j))
  {
    var a, c := BlockCount(|aad|), BlockCount(|ciphertext|);
    if k < a {
      PaddedByte(aad, k, j);
    } else if k < a + c {
      PaddedByte(ciphertext, k - a, j);
    }
  }

  /** That block holds both lengths in bits, the associated data's first, as 64-bit big-endian numbers. */
  lemma LengthsHashed(aad: seq<bv8>, ciphertext: seq<bv8>)
    ensures var blocks := HashedBlocks(aad, ciphertext); var last := blocks[|blocks| - 1];
            IsBig(last[..8], 8 * |aad|) && IsBig(last[8..], 8 * |ciphertext|)
  {
    BigIs(|aad| * 8, 8);
    BigIs(|ciphertext| * 8, 8);
    TwoBig(BigEndian(|aad| * 8, 8), BigEndian(|ciphertext| * 8, 8), 8 * |aad|, 8 * |ciphertext|);
  }

  lemma TwoBig(a: seq<bv8>, b: seq<bv8>, m: nat, n: nat)
    requires |a| == |b| == 8 && IsBig(a, m) && IsBig(b, n)
    ensures IsBig((a + b)[..8], m) && IsBig((a + b)[8..], n)
  {
    assert (a + b)[..8] == a && (a + b)[8..] == b;
  }

  // ── the field and its bit order ──────────────────────────────────────────

  /** Bit `8 j + r` of an element is bit `7 - r` of byte `j`. */
  lemma BitOfByte(b: Block, j: nat, r: nat)
    requires j < 16 && r < 8
    ensures Bits(b)[8 * j + r] == ((b[j] >> (7 - r)) & 1 == 1)
  {
    BitByShift(b[j], r);
  }

  /** The 128th power of the generator is the sum of its powers 0, 1, 2 and 7. */
  lemma ReductionIs(i: nat)
    requires i < 128
    ensures Mul(Unit(127), Unit(1))[i] <==> i in {0, 1, 2, 7}
  {
    TopTimesX(127, 1);
    ShiftedOut(Unit(127), i);
  }

  lemma TopTimesX(n: nat, one: nat)
    requires n == 127 && one == 1
    ensures Mul(Unit(n), Unit(one)) == MulX(Unit(n))
  {
    UnitFactor(n, Unit(one), 0);
    UnitPower(one);
    MulXnSum(Unit(0), one, n);
    MulXnLast(Unit(0), n);
    UnitPower(n);
  }

  lemma ShiftedOut(top: Elem, i: nat)
    requires i < 128 && top[127] && forall j :: 0 <= j < 127 ==> !top[j]
    ensures MulX(top)[i] <==> i in {0, 1, 2, 7}
  {
  }

  /** The tag in bits: the polynomial at the enciphered zero block, masked by the enciphered counter 1. */
  lemma TagBit(cipher: Block -> Block, iv: Iv, ciphertext: seq<bv8>, tag: Block, zero: Block, first: Block, i: nat)
    requires IsTag(cipher, iv, ciphertext, tag) && i < 128
    requires (forall j :: 0 <= j < 16 ==> zero[j] == 0) && IsCounter(first, iv, 1)
    ensures Bits(tag)[i] == (Polynomial(Bits(cipher(zero)), Elements(HashedBlocks([], ciphertext)))[i] != Bits(cipher(first))[i])
  {
    CounterIs(first, iv, 1);
    assert zero == ZeroBlock();
  }

  // ── the blob ─────────────────────────────────────────────────────────────

  predicate Spells(bs: seq<bv8>, text: string) { |bs| == |text| && forall i :: 0 <= i < |bs| ==> bs[i] as int == text[i] as int }

  lemma PepperText()
    ensures Spells(PEPPER, "nice_token_is_nice")
  {
    PepperFront();
    PepperBack();
  }

  lemma PepperFront()
    ensures |PEPPER| == 18 && forall i :: 0 <= i < 9 ==> PEPPER[i] as int == "nice_token_is_nice"[i] as int
  {
  }

  lemma PepperBack()
    ensures |PEPPER| == 18 && forall i :: 9 <= i < 18 ==> PEPPER[i] as int == "nice_token_is_nice"[i] as int
  {
  }

  /** The key is derived from the machine's name, the fixed text and the passphrase, under the salt. */
  lemma KeyIs(crypto: Crypto, machine: seq<bv8>, passphrase: seq<bv8>, salt: Salt, pepper: seq<bv8>)
    requires Spells(pepper, "nice_token_is_nice")
    ensures DeriveKey(crypto, machine, passphrase, salt) == crypto.derive(machine + pepper + passphrase, salt)
  {
    PepperText();
    SpelledSame(pepper, PEPPER, "nice_token_is_nice");
  }

  lemma SpelledSame(a: seq<bv8>, b: seq<bv8>, text: string)
    requires Spells(a, text) && Spells(b, text)
    ensures a == b
  {
    forall i | 0 <= i < |a| ensures a[i] == b[i] { SameByte(a[i], b[i]); }
  }

  lemma SameByte(a: bv8, b: bv8)
    requires a as int == b as int
    ensures a == b
  {
  }

  /** Every byte of a sealed blob: format 4, the salt's length, salt, IV, tag, and the text under the keystream. */
  lemma SealedBytes(crypto: Crypto, machine: seq<bv8>, passphrase: seq<bv8>, salt: Salt, iv: Iv, plaintext: seq<bv8>, blob: seq<bv8>, pepper: seq<bv8>)
      returns (cipher: Block -> Block, tag: Block)
    requires Sealed(crypto, machine, passphrase, salt, iv, plaintext, blob) && Spells(pepper, "nice_token_is_nice")
    ensures cipher == crypto.aes(crypto.derive(machine + pepper + passphrase, salt))
    ensures |blob| == 49 + |plaintext| && blob[0] == 4 && blob[1..5] == [0, 0, 0, 16]
    ensures blob[5..21] == salt && blob[21..33] == iv && blob[33..49] == tag && IsTag(cipher, iv, blob[49..], tag)
    ensures forall i: nat, c: Block :: i < |plaintext| && IsCounter(c, iv, (2 + i / 16) % 0x1_0000_0000) ==>
              blob[49 + i] == plaintext[i] ^ cipher(c)[i % 16]
  {
    KeyIs(crypto, machine, passphrase, salt, pepper);
    cipher := crypto.aes(DeriveKey(crypto, machine, passphrase, salt));
    var ciphertext := Ctr(cipher, iv, plaintext, 2);
    tag :| IsTag(cipher, iv, ciphertext, tag) && blob == Layout(salt, iv, tag, ciphertext);
    LayoutFields(salt, iv, tag, ciphertext);
    forall i: nat, c: Block | i < |plaintext| && IsCounter(c, iv, (2 + i / 16) % 0x1_0000_0000)
      ensures blob[49 + i] == plaintext[i] ^ cipher(c)[i % 16]
    {
      StreamByte(cipher, iv, plaintext, i, c);
      assert blob[49 + i] == blob[49..][i];
    }
  }

  // ── what is refused ──────────────────────────────────────────────────────

  /** Every blob that is not of this format has its own answer, decided by its first byte, its length and its length field. */
  lemma Refusals(crypto: Crypto, blob: seq<bv8>, machine: seq<bv8>, passphrase: seq<bv8>)
    ensures blob == [] || (blob[0] != 0x04 && blob[0] != 0x7B) ==> Opened(crypto, blob, machine, passphrase) == Failure(Unsupported)
    ensures blob != [] && blob[0] == 0x7B ==> Opened(crypto, blob, machine, passphrase) == Failure(Unencrypted)
    ensures 0 < |blob| < 49 && blob[0] == 0x04 ==> Opened(crypto, blob, machine, passphrase) == Failure(TooShort)
    ensures |blob| >= 49 && blob[0] == 0x04 && blob[1..5] != [0, 0, 0, 16] ==> Opened(crypto, blob, machine, passphrase) == Failure(Corrupted)
    ensures |blob| >= 49 && blob[0] == 0x04 && blob[1..5] == [0, 0, 0, 16] ==>
              Opened(crypto, blob, machine, passphrase) in {Failure(TagMismatch), Failure(NotText)} || Opened(crypto, blob, machine, passphrase).Success?
  {
    if |blob| >= 49 { LengthField(blob[1..5]); }
  }
}
