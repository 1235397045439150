/** The account file of crates/perun-cli/src/store/account.rs. Key derivation and the block cipher are given functions. */
module Vault {
  import opened Wrappers
  import opened Gf128
  import opened Ghash
  import B = Bytes
  import Utf8

  type Key = k: seq<bv8> | |k| == 32 witness seq(32, _ => 0)
  type Iv = v: seq<bv8> | |v| == 12 witness seq(12, _ => 0)
  type Salt = s: seq<bv8> | |s| == 16 witness seq(16, _ => 0)

  /** Key derivation over (material, salt), and the block cipher under a key. */
  datatype Crypto = Crypto(derive: (seq<bv8>, seq<bv8>) -> Key, aes: Key -> Block -> Block)

  datatype VaultError = Unencrypted | Unsupported | TooShort | Corrupted | TagMismatch | NotText

  const FORMAT: bv8 := 0x04
  const BRACE: bv8 := 0x7B
  const PEPPER: seq<bv8> := [0x6E, 0x69, 0x63, 0x65, 0x5F, 0x74, 0x6F, 0x6B, 0x65, 0x6E, 0x5F, 0x69, 0x73, 0x5F, 0x6E, 0x69, 0x63, 0x65]

  function DeriveKey(crypto: Crypto, machine: seq<bv8>, passphrase: seq<bv8>, salt: seq<bv8>): Key {
    crypto.derive(machine + PEPPER + passphrase, salt)
  }

  // ── counter mode ─────────────────────────────────────────────────────────

  function CounterBlock(iv: Iv, index: B.u32): Block { iv + BigEndian(index, 4) }

  function XorPrefix(chunk: seq<bv8>, stream: Block): (out: seq<bv8>)
    requires |chunk| <= 16
    ensures |out| == |chunk|
  {
    seq(|chunk|, i requires 0 <= i < |chunk| => chunk[i] ^ stream[i])
  }

  /** The chunks of `data`, each under the next counter; the counter wraps at 32 bits. */
  function Ctr(cipher: Block -> Block, iv: Iv, data: seq<bv8>, index: B.u32): (out: seq<bv8>)
    ensures |out| == |data|
    decreases |data|
  {
    if |data| <= 16 then XorPrefix(data, cipher(CounterBlock(iv, index)))
    else XorPrefix(data[..16], cipher(CounterBlock(iv, index))) + Ctr(cipher, iv, data[16..], B.Wrap32(index + 1))
  }

  lemma XorPrefixTwice(chunk: seq<bv8>, stream: Block)
    requires |chunk| <= 16
    ensures XorPrefix(XorPrefix(chunk, stream), stream) == chunk
  {
  }

  /** Counter mode is its own inverse, for every length and starting counter. */
  lemma {:induction false} CtrInverse(cipher: Block -> Block, iv: Iv, data: seq<bv8>, index: B.u32)
    ensures Ctr(cipher, iv, Ctr(cipher, iv, data, index), index) == data
    decreases |data|
  {
    var stream := cipher(CounterBlock(iv, index));
    if |data| <= 16 {
      XorPrefixTwice(data, stream);
    } else {
      var once, next := Ctr(cipher, iv, data, index), B.Wrap32(index + 1);
      XorPrefixTwice(data[..16], stream);
      CtrInverse(cipher, iv, data[16..], next);
      assert once[..16] == XorPrefix(data[..16], stream) && once[16..] == Ctr(cipher, iv, data[16..], next);
      assert data == data[..16] + data[16..];
    }
  }

  method XorChunk(chunk: seq<bv8>, stream: Block) returns (out: seq<bv8>)
    requires |chunk| <= 16
    ensures out == XorPrefix(chunk, stream)
  {
    out := [];
    for i := 0 to |chunk|
      invariant out == XorPrefix(chunk, stream)[..i]
    {
      out := out + [chunk[i] ^ stream[i]];
    }
  }

  /** The keystream loop that both directions run, from counter 2. */
  method CtrLoop(cipher: Block -> Block, iv: Iv, data: seq<bv8>) returns (out: seq<bv8>)
    ensures out == Ctr(cipher, iv, data, 2)
  {
    out := [];
    var index: B.u32, at := 2, 0;
    ghost var rest := data;
    while at < |data|
      invariant at <= |data| && rest == data[at..]
      invariant out + Ctr(cipher, iv, rest, index) == Ctr(cipher, iv, data, 2)
      decreases |data| - at
    {
      var end := if |data| - at < 16 then |data| else at + 16;
      var part := XorChunk(data[at..end], cipher(CounterBlock(iv, index)));
      CtrNext(cipher, iv, rest, index, data[at..end], part, data[end..]);
      out := out + part;
      index := B.Wrap32(index + 1);
      at := end;
      rest := data[end..];
    }
  }

  /** One turn of the loop. */
  lemma CtrNext(cipher: Block -> Block, iv: Iv, rest: seq<bv8>, index: B.u32, chunk: seq<bv8>, part: seq<bv8>, after: seq<bv8>)
    requires rest != [] && rest == chunk + after && |chunk| <= 16 && (after != [] ==> |chunk| == 16)
    requires part == XorPrefix(chunk, cipher(CounterBlock(iv, index)))
    ensures forall out: seq<bv8> :: out + Ctr(cipher, iv, rest, index) == out + part + Ctr(cipher, iv, after, B.Wrap32(index + 1))
  {
  }

  // ── the tag ──────────────────────────────────────────────────────────────

  /** `tag` authenticates the ciphertext: the hash polynomial under the key, masked by the first counter block. */
  ghost predicate IsTag(cipher: Block -> Block, iv: Iv, ciphertext: seq<bv8>, tag: Block) {
    Bits(tag) == Xor(Polynomial(Bits(cipher(ZeroBlock())), Elements(HashedBlocks([], ciphertext))), Bits(cipher(CounterBlock(iv, 1))))
  }

  lemma {:induction false} SameBitsSameByte(a: bv8, b: bv8)
    requires forall r :: 0 <= r < 8 ==> Bit(a, r) == Bit(b, r)
    ensures a == b
  {
    forall r | 0 <= r < 8 ensures (a & Mask(r) != 0) == (b & Mask(r) != 0) {
      BitIsMask(a, r);
      BitIsMask(b, r);
    }
    AllMasks(a, b);
  }

  lemma AllMasks(a: bv8, b: bv8)
    requires forall r :: 0 <= r < 8 ==> (a & Mask(r) != 0) == (b & Mask(r) != 0)
    ensures a == b
  {
    assert (a & Mask(0) != 0) == (b & Mask(0) != 0) && (a & Mask(1) != 0) == (b & Mask(1) != 0);
    assert (a & Mask(2) != 0) == (b & Mask(2) != 0) && (a & Mask(3) != 0) == (b & Mask(3) != 0);
    assert (a & Mask(4) != 0) == (b & Mask(4) != 0) && (a & Mask(5) != 0) == (b & Mask(5) != 0);
    assert (a & Mask(6) != 0) == (b & Mask(6) != 0) && (a & Mask(7) != 0) == (b & Mask(7) != 0);
  }

  /** A block is determined by its field element. */
  lemma BitsInjective(a: Block, b: Block)
    ensures Bits(a) == Bits(b) ==> a == b
  {
    if Bits(a) == Bits(b) {
      forall j | 0 <= j < 16 ensures a[j] == b[j] {
        forall r | 0 <= r < 8 ensures Bit(a[j], r) == Bit(b[j], r) {
          var i := 8 * j + r;
          assert i / 8 == j && i % 8 == r;
          assert Bits(a)[i] == Bits(b)[i];
        }
        SameBitsSameByte(a[j], b[j]);
      }
    }
  }

  /** Only one tag is right. */
  lemma TagUnique(cipher: Block -> Block, iv: Iv, ciphertext: seq<bv8>, tag: Block, other: Block)
    requires IsTag(cipher, iv, ciphertext, tag)
    ensures IsTag(cipher, iv, ciphertext, other) <==> other == tag
  {
    BitsInjective(tag, other);
  }

  lemma OrZero(d: bv8, a: bv8, b: bv8)
    ensures d | (a ^ b) == 0 <==> d == 0 && a == b
  {
  }

  /** The comparison that looks at every byte. */
  method SameTag(expected: Block, tag: Block) returns (same: bool)
    ensures same == (expected == tag)
  {
    var diff: bv8 := 0;
    for i := 0 to 16
      invariant diff == 0 <==> forall k :: 0 <= k < i ==> expected[k] == tag[k]
    {
      OrZero(diff, expected[i], tag[i]);
      diff := diff | (expected[i] ^ tag[i]);
    }
    same := diff == 0;
  }

  method AesGcmEncrypt(cipher: Block -> Block, iv: Iv, plaintext: seq<bv8>) returns (ciphertext: seq<bv8>, tag: Block)
    ensures ciphertext == Ctr(cipher, iv, plaintext, 2) && IsTag(cipher, iv, ciphertext, tag)
  {
    var tagBase := cipher(CounterBlock(iv, 1));
    ciphertext := CtrLoop(cipher, iv, plaintext);
    tag := GhashTag(cipher, tagBase, ciphertext, []);
  }

  function Ints(bs: seq<bv8>): seq<B.byte> { seq(|bs|, i requires 0 <= i < |bs| => bs[i] as int) }

  /** A Rust string, by its bytes. */
  predicate IsText(bs: seq<bv8>) { Utf8.IsText(Ints(bs)) }

  method AesGcmDecrypt(cipher: Block -> Block, iv: Iv, ciphertext: seq<bv8>, tag: Block) returns (r: Result<seq<bv8>, VaultError>)
    ensures !IsTag(cipher, iv, ciphertext, tag) ==> r == Failure(TagMismatch)
    ensures IsTag(cipher, iv, ciphertext, tag) ==>
              var plaintext := Ctr(cipher, iv, ciphertext, 2); r == if IsText(plaintext) then Success(plaintext) else Failure(NotText)
  {
    var tagBase := cipher(CounterBlock(iv, 1));
    var expected := GhashTag(cipher, tagBase, ciphertext, []);
    TagUnique(cipher, iv, ciphertext, expected, tag);
    var same := SameTag(expected, tag);
    if !same { return Failure(TagMismatch); }
    var plaintext := CtrLoop(cipher, iv, ciphertext);
    r := if IsText(plaintext) then Success(plaintext) else Failure(NotText);
  }

  // ── the file ─────────────────────────────────────────────────────────────

  const SALT_LEN: seq<bv8> := [0, 0, 0, 16]

  /** The blob's fields, in order. */
  function Layout(salt: Salt, iv: Iv, tag: Block, ciphertext: seq<bv8>): seq<bv8> {
    [FORMAT] + SALT_LEN + salt + iv + tag + ciphertext
  }

  /** `blob` is what `encrypt` makes of `plaintext` when it draws this salt and IV. */
  ghost predicate Sealed(crypto: Crypto, machine: seq<bv8>, passphrase: seq<bv8>, salt: Salt, iv: Iv, plaintext: seq<bv8>, blob: seq<bv8>) {
    var cipher := crypto.aes(DeriveKey(crypto, machine, passphrase, salt));
    var ciphertext := Ctr(cipher, iv, plaintext, 2);
    exists tag: Block :: IsTag(cipher, iv, ciphertext, tag) && blob == Layout(salt, iv, tag, ciphertext)
  }

  method Encrypt(crypto: Crypto, plaintext: seq<bv8>, machine: seq<bv8>, passphrase: seq<bv8>, salt: Salt, iv: Iv) returns (blob: seq<bv8>)
    ensures Sealed(crypto, machine, passphrase, salt, iv, plaintext, blob)
  {
    var cipher := crypto.aes(DeriveKey(crypto, machine, passphrase, salt));
    var ciphertext, tag := AesGcmEncrypt(cipher, iv, plaintext);
    blob := [FORMAT];
    blob := blob + SALT_LEN;
    blob := blob + salt;
    blob := blob + iv;
    blob := blob + tag;
    blob := blob + ciphertext;
    assert blob == Layout(salt, iv, tag, ciphertext);
  }

  function ReadBe32(bs: seq<bv8>): nat
    requires |bs| == 4
  {
    0x100_0000 * (bs[0] as int) + 0x1_0000 * (bs[1] as int) + 0x100 * (bs[2] as int) + (bs[3] as int)
  }

  /** What `decrypt` answers. */
  ghost function Opened(crypto: Crypto, blob: seq<bv8>, machine: seq<bv8>, passphrase: seq<bv8>): Result<seq<bv8>, VaultError> {
    if blob != [] && blob[0] == BRACE then Failure(Unencrypted)
    else if blob == [] || blob[0] != FORMAT then Failure(Unsupported)
    else if |blob| < 49 then Failure(TooShort)
    else if ReadBe32(blob[1..5]) != 16 then Failure(Corrupted)
    else
      var salt, iv, tag, ciphertext := blob[5..21], blob[21..33], blob[33..49], blob[49..];
      var cipher := crypto.aes(DeriveKey(crypto, machine, passphrase, salt));
      var plaintext := Ctr(cipher, iv, ciphertext, 2);
      if !IsTag(cipher, iv, ciphertext, tag) then Failure(TagMismatch)
      else if IsText(plaintext) then Success(plaintext)
      else Failure(NotText)
  }

  method Decrypt(crypto: Crypto, blob: seq<bv8>, machine: seq<bv8>, passphrase: seq<bv8>) returns (r: Result<seq<bv8>, VaultError>)
    ensures r == Opened(crypto, blob, machine, passphrase)
  {
    if blob != [] && blob[0] == BRACE { return Failure(Unencrypted); }
    if blob == [] || blob[0] != FORMAT { return Failure(Unsupported); }
    var pos := 1;
    if |blob| < pos + 4 + 16 + 12 + 16 { return Failure(TooShort); }
    var saltLen := ReadBe32(blob[pos..pos + 4]);
    pos := pos + 4;
    if saltLen != 16 || |blob| < pos + saltLen + 12 + 16 { return Failure(Corrupted); }
    var salt := blob[pos..pos + saltLen];
    pos := pos + saltLen;
    var iv: Iv := blob[pos..pos + 12];
    pos := pos + 12;
    var tag: Block := blob[pos..pos + 16];
    pos := pos + 16;
    var ciphertext := blob[pos..];
    var key := DeriveKey(crypto, machine, passphrase, salt);
    r := AesGcmDecrypt(crypto.aes(key), iv, ciphertext, tag);
  }

  // ── the round trip ───────────────────────────────────────────────────────

  lemma LayoutFields(salt: Salt, iv: Iv, tag: Block, ciphertext: seq<bv8>)
    ensures var blob := Layout(salt, iv, tag, ciphertext);
            && |blob| == 49 + |ciphertext| && blob[0] == FORMAT && blob[1..5] == SALT_LEN
            && blob[5..21] == salt && blob[21..33] == iv && blob[33..49] == tag && blob[49..] == ciphertext
  {
  }

  lemma LengthField(bs: seq<bv8>)
    requires |bs| == 4
    ensures ReadBe32(bs) == 16 <==> bs == SALT_LEN
  {
  }

  lemma FieldsLayout(blob: seq<bv8>)
    requires |blob| >= 49 && blob[0] == FORMAT && blob[1..5] == SALT_LEN
    ensures blob == Layout(blob[5..21], blob[21..33], blob[33..49], blob[49..])
  {
  }

  /** For every text, machine, passphrase, salt and IV, opening the sealed blob gives the text back. */
  lemma SealedOpens(crypto: Crypto, machine: seq<bv8>, passphrase: seq<bv8>, salt: Salt, iv: Iv, plaintext: seq<bv8>, blob: seq<bv8>)
    requires Sealed(crypto, machine, passphrase, salt, iv, plaintext, blob) && IsText(plaintext)
    ensures Opened(crypto, blob, machine, passphrase) == Success(plaintext)
  {
    var cipher := crypto.aes(DeriveKey(crypto, machine, passphrase, salt));
    var ciphertext := Ctr(cipher, iv, plaintext, 2);
    var tag: Block :| IsTag(cipher, iv, ciphertext, tag) && blob == Layout(salt, iv, tag, ciphertext);
    LayoutFields(salt, iv, tag, ciphertext);
    LengthField(blob[1..5]);
    CtrInverse(cipher, iv, plaintext, 2);
  }

  /** Only sealed blobs open: the file opens to a text exactly when sealing that text, with the file's salt and IV, makes the file. */
  lemma OpensExactlySealed(crypto: Crypto, machine: seq<bv8>, passphrase: seq<bv8>, plaintext: seq<bv8>, blob: seq<bv8>)
    requires IsText(plaintext)
    ensures Opened(crypto, blob, machine, passphrase) == Success(plaintext) <==>
            exists salt: Salt, iv: Iv :: Sealed(crypto, machine, passphrase, salt, iv, plaintext, blob)
  {
    if Opened(crypto, blob, machine, passphrase) == Success(plaintext) {
      var salt: Salt, iv: Iv, tag: Block, ciphertext := blob[5..21], blob[21..33], blob[33..49], blob[49..];
      var cipher := crypto.aes(DeriveKey(crypto, machine, passphrase, salt));
      LengthField(blob[1..5]);
      FieldsLayout(blob);
      CtrInverse(cipher, iv, ciphertext, 2);
      assert Sealed(crypto, machine, passphrase, salt, iv, plaintext, blob);
    }
    forall salt: Salt, iv: Iv | Sealed(crypto, machine, passphrase, salt, iv, plaintext, blob)
      ensures Opened(crypto, blob, machine, passphrase) == Success(plaintext)
    {
      SealedOpens(crypto, machine, passphrase, salt, iv, plaintext, blob);
    }
  }
}
