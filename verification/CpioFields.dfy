/**
 * The octal fields of an archive header as text: which characters are trimmed around the digits, for
 * every character there is, and what every field reads as.
 */
module CpioFields {
  import opened Bytes
  import opened Wrappers
  import opened Cpio
  import opened Utf8Exact
  import Utf8

  /** The characters with the Unicode property White_Space. */
  predicate White(c: int) {
    || 0x09 <= c <= 0x0D || c == 0x20 || c == 0x85 || c == 0xA0 || c == 0x1680
    || 0x2000 <= c <= 0x200A || c == 0x2028 || c == 0x2029 || c == 0x202F || c == 0x205F || c == 0x3000
  }

  // ── one character at either end ──────────────────────────────────────────

  lemma LeadingOne(c: int, rest: seq<byte>)
    requires 0 <= c < 0x80
    ensures Leading([c] + rest) == if White(c) then 1 else 0
  {
  }

  lemma LeadingTwo(c: int, rest: seq<byte>)
    requires 0x80 <= c < 0x800
    ensures Leading(Encoded(c) + rest) == if White(c) then 2 else 0
  {
    var a, b := 0xC0 + c / 0x40, 0x80 + c % 0x40;
    assert c == 0x40 * (a - 0xC0) + (b - 0x80);
    TwoBytes(c);
  }

  lemma LeadingThree(c: int, rest: seq<byte>)
    requires 0x800 <= c < 0x1_0000 && Scalar(c)
    ensures Leading(Encoded(c) + rest) == if White(c) then 3 else 0
  {
    ThreeBytes(c);
    Triple(c);
  }

  /** Three-byte blanks by their bytes. */
  lemma Triple(c: int)
    requires 0x800 <= c < 0x1_0000
    ensures Space3(0xE0 + c / 0x1000, 0x80 + c / 0x40 % 0x40, 0x80 + c % 0x40) <==> White(c)
  {
    var high, mid, low := c / 0x1000, c / 0x40 % 0x40, c % 0x40;
    assert c / 0x40 == 0x40 * high + mid && c == 0x40 * (c / 0x40) + low;
    assert c == 0x1000 * high + 0x40 * mid + low;
  }

  /** A field's first character is trimmed exactly when it is white space, in all its bytes. */
  lemma LeadingIs(c: int, rest: seq<byte>)
    requires Scalar(c)
    ensures Leading(Encoded(c) + rest) == if White(c) then |Encoded(c)| else 0
  {
    if c < 0x80 {
      LeadingOne(c, rest);
    } else if c < 0x800 {
      LeadingTwo(c, rest);
    } else if c < 0x1_0000 {
      LeadingThree(c, rest);
    } else {
      FourBytes(c);
    }
  }

  lemma Ends(front: seq<byte>, e: seq<byte>, k: nat)
    requires 0 < k <= |e|
    ensures (front + e)[|front + e| - k] == e[|e| - k]
  {
  }

  lemma TrailingOne(front: seq<byte>, c: byte)
    requires c < 0x80
    ensures Trailing(front + [c]) == if White(c) then 1 else 0
  {
  }

  lemma TrailingTwo(front: seq<byte>, c: int)
    requires 0x80 <= c < 0x800
    ensures Trailing(front + Encoded(c)) == if White(c) then 2 else 0
  {
    var a, b := 0xC0 + c / 0x40, 0x80 + c % 0x40;
    var t := front + [a, b];
    assert c == 0x40 * (a - 0xC0) + (b - 0x80);
    TwoBytes(c);
    assert t[|t| - 1] == b && t[|t| - 2] == a;
    assert !Utf8.Continues(a);
  }

  lemma TrailingThree(front: seq<byte>, c: int)
    requires 0x800 <= c < 0x1_0000 && Scalar(c)
    ensures Trailing(front + Encoded(c)) == if White(c) then 3 else 0
  {
    var t := front + Encoded(c);
    ThreeBytes(c);
    Triple(c);
    Ends(front, Encoded(c), 1);
    Ends(front, Encoded(c), 2);
    Ends(front, Encoded(c), 3);
  }

  /** The same at the end of a field. */
  lemma TrailingIs(front: seq<byte>, c: int)
    requires Scalar(c)
    ensures Trailing(front + Encoded(c)) == if White(c) then |Encoded(c)| else 0
  {
    if c < 0x80 {
      TrailingOne(front, c);
    } else if c < 0x800 {
      TrailingTwo(front, c);
    } else if c < 0x1_0000 {
      TrailingThree(front, c);
    } else {
      FourBytes(c);
      Ends(front, Encoded(c), 1);
      Ends(front, Encoded(c), 2);
      Ends(front, Encoded(c), 3);
    }
  }

  // ── whole fields ─────────────────────────────────────────────────────────

  predicate Blank(cs: seq<int>) { forall i :: 0 <= i < |cs| ==> White(cs[i]) && Scalar(cs[i]) }

  lemma {:induction false} BlanksGoFirst(cs: seq<int>, body: seq<byte>)
    requires Blank(cs)
    ensures TrimStart(EncodedAll(cs) + body) == TrimStart(body)
    decreases |cs|
  {
    if cs == [] {
      assert EncodedAll(cs) + body == body;
    } else {
      var rest := EncodedAll(cs[1..]) + body;
      assert EncodedAll(cs) + body == Encoded(cs[0]) + rest;
      LeadingIs(cs[0], rest);
      assert (Encoded(cs[0]) + rest)[|Encoded(cs[0])|..] == rest;
      BlanksGoFirst(cs[1..], body);
    }
  }

  lemma {:induction false} EncodedLast(cs: seq<int>, c: int)
    requires (forall i :: 0 <= i < |cs| ==> Scalar(cs[i])) && Scalar(c)
    ensures EncodedAll(cs + [c]) == EncodedAll(cs) + Encoded(c)
    decreases |cs|
  {
    if cs == [] {
      assert cs + [c] == [c] && EncodedAll([c]) == Encoded(c) + EncodedAll([c][1..]);
    } else {
      assert (cs + [c])[1..] == cs[1..] + [c];
      EncodedLast(cs[1..], c);
      assert (Encoded(cs[0]) + EncodedAll(cs[1..])) + Encoded(c) == Encoded(cs[0]) + (EncodedAll(cs[1..]) + Encoded(c));
    }
  }

  lemma {:induction false} BlanksGoLast(body: seq<byte>, cs: seq<int>)
    requires Blank(cs)
    ensures TrimEnd(body + EncodedAll(cs)) == TrimEnd(body)
    decreases |cs|
  {
    if cs == [] {
      assert body + EncodedAll(cs) == body;
    } else {
      var front, c := cs[..|cs| - 1], cs[|cs| - 1];
      assert cs == front + [c];
      EncodedLast(front, c);
      var before := body + EncodedAll(front);
      assert body + EncodedAll(cs) == before + Encoded(c);
      TrailingIs(before, c);
      assert (before + Encoded(c))[..|before|] == before;
      BlanksGoLast(body, front);
    }
  }

  lemma {:induction false} TextAppend(a: seq<byte>, b: seq<byte>)
    requires Utf8.IsText(a) && Utf8.IsText(b)
    ensures Utf8.IsText(a + b)
    decreases |a|
  {
    if a == [] {
      assert a + b == b;
    } else {
      var w := Utf8.FirstChunk(a).width;
      Utf8.ChunkLocal(a, a[w..] + b);
      assert a + b == a[..w] + (a[w..] + b) && (a + b)[w..] == a[w..] + b;
      TextAppend(a[w..], b);
    }
  }

  lemma FieldIsText(before: seq<int>, body: seq<byte>, after: seq<int>)
    requires Blank(before) && Blank(after) && forall i :: 0 <= i < |body| ==> body[i] < 0x80
    ensures Utf8.Lossy(EncodedAll(before) + (body + EncodedAll(after))) == EncodedAll(before) + (body + EncodedAll(after))
  {
    EncodedIsText(before);
    EncodedIsText(after);
    Utf8.AsciiIsText(body);
    TextAppend(body, EncodedAll(after));
    TextAppend(EncodedAll(before), body + EncodedAll(after));
    Utf8.LossyKeepsText(EncodedAll(before) + (body + EncodedAll(after)));
  }

  predicate Visible(body: seq<byte>) { forall i :: 0 <= i < |body| ==> 0x21 <= body[i] < 0x80 }

  lemma VisibleStays(body: seq<byte>, tail: seq<byte>)
    requires body != [] && Visible(body)
    ensures TrimStart(body + tail) == body + tail && TrimEnd(body) == body
  {
    assert (body + tail)[0] == body[0];
    assert Leading(body + tail) == 0;
    assert Trailing(body) == 0;
  }

  /** White space around visible characters does not show in what they read as. */
  lemma FieldTrims(before: seq<int>, body: seq<byte>, after: seq<int>)
    requires Blank(before) && Blank(after) && body != [] && Visible(body)
    ensures OctalField(EncodedAll(before) + (body + EncodedAll(after))) == ParseOctal(body)
  {
    var raw := EncodedAll(before) + (body + EncodedAll(after));
    FieldIsText(before, body, after);
    BlanksGoFirst(before, body + EncodedAll(after));
    VisibleStays(body, EncodedAll(after));
    BlanksGoLast(body, after);
    assert TrimEnd(TrimStart(raw)) == body;
  }

  lemma PlusDigits(plus: bool, n: nat, width: nat)
    requires 0 < width <= 21 && n < Pow8(width)
    ensures ParseOctal((if plus then [0x2B] else []) + Octal(n, width)) == Some(n)
  {
    var digits := Octal(n, width);
    OctalRoundTrip(n, width);
    Pow8Bound(width);
    assert digits[0] != 0x2B;
    if plus { assert ([0x2B] + digits)[1..] == digits; } else { assert [] + digits == digits; }
  }

  /** A field of octal digits with any white space around them reads as their number, with or without a plus sign. */
  lemma DigitsRead(before: seq<int>, plus: bool, n: nat, width: nat, after: seq<int>)
    requires Blank(before) && Blank(after) && 0 < width <= 21 && n < Pow8(width)
    ensures OctalField(EncodedAll(before) + ((if plus then [0x2B] else []) + Octal(n, width) + EncodedAll(after))) == Some(n)
  {
    PlusDigits(plus, n, width);
    FieldTrims(before, (if plus then [0x2B] else []) + Octal(n, width), after);
  }

  /** A field of white space alone is zero. */
  lemma BlankIsZero(cs: seq<int>)
    requires Blank(cs)
    ensures OctalField(EncodedAll(cs)) == Some(0)
  {
    BlanksGoFirst(cs, []);
    assert EncodedAll(cs) + [] == EncodedAll(cs);
    EncodedIsText(cs);
    Utf8.LossyKeepsText(EncodedAll(cs));
  }

  /** Anything else in place of a digit makes the field unreadable. */
  lemma OtherRefused(before: seq<int>, body: seq<byte>, after: seq<int>, i: nat)
    requires Blank(before) && Blank(after) && Visible(body)
    requires i < |body| && !(0x30 <= body[i] <= 0x37) && !(i == 0 && body[0] == 0x2B)
    ensures OctalField(EncodedAll(before) + (body + EncodedAll(after))) == None
  {
    FieldTrims(before, body, after);
    NoDigit(body, i);
  }

  lemma NoDigit(body: seq<byte>, i: nat)
    requires i < |body| && !OctalDigit(body[i]) && !(i == 0 && body[0] == 0x2B)
    ensures ParseOctal(body) == None
  {
    if body[0] == 0x2B {
      assert !OctalDigit(body[1..][i - 1]);
      assert !AllOctal(body[1..]);
    } else {
      assert !AllOctal(body);
    }
  }

  /** Digits alone are refused exactly when the number does not fit in 64 bits. */
  lemma LongRefused(before: seq<int>, digits: seq<byte>, after: seq<int>)
    requires Blank(before) && Blank(after) && digits != [] && AllOctal(digits)
    ensures OctalField(EncodedAll(before) + (digits + EncodedAll(after))) ==
            if OctalValue(digits) < 0x1_0000_0000_0000_0000 then Some(OctalValue(digits)) else None
  {
    FieldTrims(before, digits, after);
    assert OctalDigit(digits[0]);
  }

  // ── bad headers ──────────────────────────────────────────────────────────

  /** A header is refused for its first fault, each with its own error. */
  lemma HeadRefused(s: seq<byte>)
    ensures |s| < 76 ==> ParseHead(s) == Bad(Ended)
    ensures |s| >= 76 && s[..6] != [0x30, 0x37, 0x30, 0x37, 0x30, 0x37] ==> ParseHead(s) == Bad(Desync)
    ensures |s| >= 76 && s[..6] == [0x30, 0x37, 0x30, 0x37, 0x30, 0x37] && (OctalField(s[59..65]) == None || OctalField(s[65..76]) == None) ==>
              ParseHead(s) == Bad(BadOctal)
    ensures |s| >= 76 && s[..6] == [0x30, 0x37, 0x30, 0x37, 0x30, 0x37] && OctalField(s[59..65]).Some? && OctalField(s[65..76]).Some? ==>
              var n := OctalField(s[59..65]).value;
              ParseHead(s) == if |s| < 76 + n then Bad(Ended)
                              else if n == 0 || s[76 + n - 1] != 0 then Bad(NotTerminated)
                              else Head(Utf8.Lossy(s[76..76 + n - 1]), 76 + n, OctalField(s[65..76]).value)
  {
  }

  /** The archive walk stops with the header's error, at the trailer, where a body runs out, or at a body off its pins. */
  lemma WalkRefused(s: seq<byte>, wanted: seq<Want>, dir: Dir, digest: seq<byte> -> Digest)
    requires wanted != []
    ensures ParseHead(s).Bad? ==> WalkArchive(s, wanted, dir, digest) == Outcome(dir, Some(ParseHead(s).error))
    ensures ParseHead(s).Head? ==>
              var h := ParseHead(s);
              && (h.name == TRAILER ==> WalkArchive(s, wanted, dir, digest) == Outcome(dir, Some(TrailerReached)))
              && (h.name != TRAILER && h.used + h.size > |s| ==>
                    var o := WalkArchive(s, wanted, dir, digest);
                    o.error == Some(Ended) && forall k :: k in dir && !(exists w :: w in wanted && w.path == h.name && k == Tmp(w.name)) ==> k in o.dir && o.dir[k] == dir[k])
  {
    if ParseHead(s).Head? { FoundIn(wanted, ParseHead(s).name); }
  }

  lemma FoundIn(wanted: seq<Want>, path: Name)
    ensures Find(wanted, path).Some? ==> wanted[Find(wanted, path).value] in wanted
  {
  }

  lemma {:induction false} FoundAt(wanted: seq<Want>, path: Name, i: nat)
    requires i < |wanted| && wanted[i].path == path && forall j :: 0 <= j < i ==> wanted[j].path != path
    ensures Find(wanted, path) == Some(i)
    decreases i
  {
    if i > 0 { FoundAt(wanted[1..], path, i - 1); }
  }

  /** A wanted body of another size or digest than pinned stops the walk; its part file is removed and nothing else changes. */
  lemma BodyRefused(s: seq<byte>, wanted: seq<Want>, dir: Dir, digest: seq<byte> -> Digest, i: nat)
    requires ParseHead(s).Head? && ParseHead(s).name != TRAILER && ParseHead(s).used + ParseHead(s).size <= |s|
    requires i < |wanted| && wanted[i].path == ParseHead(s).name && forall j :: 0 <= j < i ==> wanted[j].path != ParseHead(s).name
    requires ParseHead(s).size != wanted[i].size || digest(s[ParseHead(s).used..][..ParseHead(s).size]) != wanted[i].pin
    ensures WalkArchive(s, wanted, dir, digest) == Outcome(dir - {Tmp(wanted[i].name)}, Some(FailedValidation))
  {
    FoundAt(wanted, ParseHead(s).name, i);
  }
}
