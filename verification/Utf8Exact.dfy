/**
 * UTF-8 by its encodings (section 3.9 of the Unicode Standard): text is a run of encoded scalar values,
 * and what one replacement stands for is a maximal part of one.
 */
module Utf8Exact {
  import opened Bytes
  import opened Utf8

  predicate Scalar(c: int) { 0 <= c < 0xD800 || 0xE000 <= c < 0x11_0000 }

  /** The bytes of a scalar value: the lead byte, then six bits a byte. */
  function Encoded(c: int): (bs: seq<byte>)
    requires Scalar(c)
    ensures 1 <= |bs| <= 4
  {
    if c < 0x80 then [c]
    else if c < 0x800 then [0xC0 + c / 0x40, 0x80 + c % 0x40]
    else if c < 0x1_0000 then [0xE0 + c / 0x1000, 0x80 + c / 0x40 % 0x40, 0x80 + c % 0x40]
    else [0xF0 + c / 0x4_0000, 0x80 + c / 0x1000 % 0x40, 0x80 + c / 0x40 % 0x40, 0x80 + c % 0x40]
  }

  function EncodedAll(cs: seq<int>): seq<byte>
    requires forall i :: 0 <= i < |cs| ==> Scalar(cs[i])
  {
    if cs == [] then [] else Encoded(cs[0]) + EncodedAll(cs[1..])
  }

  // ── one character ────────────────────────────────────────────────────────

  lemma TwoBytes(c: int)
    requires 0x80 <= c < 0x800
    ensures 0xC2 <= 0xC0 + c / 0x40 <= 0xDF && Continues(0x80 + c % 0x40)
  {
  }

  lemma ThreeBytes(c: int)
    requires 0x800 <= c < 0x1_0000 && Scalar(c)
    ensures 0xE0 <= 0xE0 + c / 0x1000 <= 0xEF && Second(0xE0 + c / 0x1000, 0x80 + c / 0x40 % 0x40)
    ensures Continues(0x80 + c % 0x40)
  {
    var high, low := c / 0x1000, c / 0x40 % 0x40;
    assert c / 0x40 == 0x40 * high + low;
  }

  lemma FourBytes(c: int)
    requires 0x1_0000 <= c < 0x11_0000
    ensures 0xF0 <= 0xF0 + c / 0x4_0000 <= 0xF4 && Second(0xF0 + c / 0x4_0000, 0x80 + c / 0x1000 % 0x40)
    ensures Continues(0x80 + c / 0x40 % 0x40) && Continues(0x80 + c % 0x40)
  {
    var high, low := c / 0x4_0000, c / 0x1000 % 0x40;
    assert c / 0x1000 == 0x40 * high + low;
  }

  /** An encoded scalar is read as one character. */
  lemma EncodedReads(c: int, rest: seq<byte>)
    requires Scalar(c)
    ensures FirstChunk(Encoded(c) + rest) == Chunk(|Encoded(c)|, true)
  {
    if c >= 0x1_0000 { FourBytes(c); } else if c >= 0x800 { ThreeBytes(c); } else if c >= 0x80 { TwoBytes(c); }
  }

  lemma TwoDecoded(a: byte, b: byte) returns (c: int)
    requires 0xC2 <= a <= 0xDF && Continues(b)
    ensures Scalar(c) && Encoded(c) == [a, b]
  {
    c := 0x40 * (a - 0xC0) + (b - 0x80);
    assert c / 0x40 == a - 0xC0 && c % 0x40 == b - 0x80;
  }

  lemma ThreeDecoded(a: byte, b: byte, d: byte) returns (c: int)
    requires 0xE0 <= a <= 0xEF && Second(a, b) && Continues(d)
    ensures Scalar(c) && Encoded(c) == [a, b, d]
  {
    c := 0x1000 * (a - 0xE0) + 0x40 * (b - 0x80) + (d - 0x80);
    assert c / 0x40 == 0x40 * (a - 0xE0) + (b - 0x80) && c % 0x40 == d - 0x80;
    assert c / 0x1000 == a - 0xE0 && c / 0x40 % 0x40 == b - 0x80;
  }

  lemma FourDecoded(a: byte, b: byte, d: byte, e: byte) returns (c: int)
    requires 0xF0 <= a <= 0xF4 && Second(a, b) && Continues(d) && Continues(e)
    ensures Scalar(c) && Encoded(c) == [a, b, d, e]
  {
    var front := 0x40 * (a - 0xF0) + (b - 0x80);
    c := 0x1000 * front + 0x40 * (d - 0x80) + (e - 0x80);
    assert c / 0x40 == 0x40 * front + (d - 0x80) && c % 0x40 == e - 0x80;
    assert c / 0x1000 == front && c / 0x40 % 0x40 == d - 0x80;
    assert c / 0x4_0000 == a - 0xF0 && front % 0x40 == b - 0x80;
  }

  /** A valid first character is the encoding of a scalar. */
  lemma CharacterDecoded(t: seq<byte>) returns (c: int)
    requires t != [] && FirstChunk(t).valid
    ensures Scalar(c) && FirstChunk(t).width <= |t| && Encoded(c) == t[..FirstChunk(t).width]
  {
    if t[0] < 0x80 {
      c := t[0];
    } else if t[0] <= 0xDF {
      c := TwoDecoded(t[0], t[1]);
    } else if t[0] <= 0xEF {
      c := ThreeDecoded(t[0], t[1], t[2]);
    } else {
      c := FourDecoded(t[0], t[1], t[2], t[3]);
    }
  }

  // ── text ─────────────────────────────────────────────────────────────────

  lemma {:induction false} EncodedIsText(cs: seq<int>)
    requires forall i :: 0 <= i < |cs| ==> Scalar(cs[i])
    ensures IsText(EncodedAll(cs))
    decreases |cs|
  {
    if cs != [] {
      EncodedIsText(cs[1..]);
      EncodedReads(cs[0], EncodedAll(cs[1..]));
      assert EncodedAll(cs)[|Encoded(cs[0])|..] == EncodedAll(cs[1..]);
    }
  }

  lemma {:induction false} TextDecoded(t: seq<byte>) returns (cs: seq<int>)
    requires IsText(t)
    ensures (forall i :: 0 <= i < |cs| ==> Scalar(cs[i])) && EncodedAll(cs) == t
  {
    if t == [] {
      cs := [];
    } else {
      var w := FirstChunk(t).width;
      var c := CharacterDecoded(t);
      var rest := TextDecoded(t[w..]);
      cs := [c] + rest;
      assert cs[1..] == rest && t == t[..w] + t[w..];
    }
  }

  ghost predicate Encodes(cs: seq<int>, t: seq<byte>) { (forall i :: 0 <= i < |cs| ==> Scalar(cs[i])) && EncodedAll(cs) == t }

  /** A byte string is text exactly when it is a run of encoded scalar values. */
  lemma TextExactly(t: seq<byte>)
    ensures IsText(t) <==> exists cs :: Encodes(cs, t)
  {
    if IsText(t) {
      var cs := TextDecoded(t);
      assert Encodes(cs, t);
    }
    if cs :| Encodes(cs, t) { EncodedIsText(cs); }
  }

  lemma ReplacementIs()
    ensures REPLACEMENT == Encoded(0xFFFD)
  {
  }

  // ── bad prefixes ─────────────────────────────────────────────────────────

  /** The first `k` bytes of `t` begin an encoding. */
  ghost predicate Begins(t: seq<byte>, k: nat, c: int)
    requires k <= |t|
  {
    Scalar(c) && k <= |Encoded(c)| && t[..k] == Encoded(c)[..k]
  }

  /** What one replacement stands for begins an encoding, unless it is a single byte. */
  lemma BadBegins(t: seq<byte>) returns (c: int)
    requires t != [] && !FirstChunk(t).valid && FirstChunk(t).width > 1
    ensures Begins(t, FirstChunk(t).width, c)
  {
    var w := FirstChunk(t).width;
    if t[0] <= 0xEF {
      c := ThreeDecoded(t[0], t[1], 0x80);
    } else if w == 2 {
      c := FourDecoded(t[0], t[1], 0x80, 0x80);
    } else {
      c := FourDecoded(t[0], t[1], t[2], 0x80);
    }
  }

  /** And no longer part of `t` does. */
  lemma BadIsMaximal(t: seq<byte>, k: nat, c: int)
    requires t != [] && !FirstChunk(t).valid && FirstChunk(t).width < k <= |t|
    ensures !Begins(t, k, c)
  {
    if Begins(t, k, c) {
      var e := Encoded(c);
      assert e + [] == e;
      SameStart(t, e, k);
      EncodedReads(c, []);
    }
  }

  /** Texts that share their first `k` bytes: the bytes the reader looks at. */
  lemma SameStart(t: seq<byte>, e: seq<byte>, k: nat)
    requires k <= |t| && k <= |e| && t[..k] == e[..k]
    ensures forall i :: 0 <= i < k ==> t[i] == e[i]
  {
    forall i | 0 <= i < k ensures t[i] == e[i] {
      assert t[..k][i] == e[..k][i];
    }
  }
}
