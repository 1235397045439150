/** The odc archive walk of crates/perun-cli/src/fetcher.rs and the assets it keeps. */
module Cpio {
  import opened Bytes
  import opened Wrappers
  import opened Streams
  import Utf8

  // ── octal fields ─────────────────────────────────────────────────────────

  /** The characters `str::trim` removes, in UTF-8: ASCII blanks, and those of two and three bytes. */
  predicate Space1(a: byte) { 0x09 <= a <= 0x0D || a == 0x20 }

  predicate Space2(a: byte, b: byte) { a == 0xC2 && (b == 0x85 || b == 0xA0) }

  predicate Space3(a: byte, b: byte, c: byte) {
    || (a == 0xE1 && b == 0x9A && c == 0x80)
    || (a == 0xE2 && b == 0x80 && (0x80 <= c <= 0x8A || c == 0xA8 || c == 0xA9 || c == 0xAF))
    || (a == 0xE2 && b == 0x81 && c == 0x9F)
    || (a == 0xE3 && b == 0x80 && c == 0x80)
  }

  /** The width of the blank `t` starts with, or 0. */
  function Leading(t: seq<byte>): (n: nat)
    ensures n <= |t|
  {
    if |t| >= 1 && Space1(t[0]) then 1
    else if |t| >= 2 && Space2(t[0], t[1]) then 2
    else if |t| >= 3 && Space3(t[0], t[1], t[2]) then 3
    else 0
  }

  function Trailing(t: seq<byte>): (n: nat)
    ensures n <= |t|
  {
    var k := |t|;
    if k >= 1 && Space1(t[k - 1]) then 1
    else if k >= 2 && Space2(t[k - 2], t[k - 1]) then 2
    else if k >= 3 && Space3(t[k - 3], t[k - 2], t[k - 1]) then 3
    else 0
  }

  function TrimStart(t: seq<byte>): (s: seq<byte>)
    decreases |t|
  {
    var n := Leading(t);
    if n == 0 then t else TrimStart(t[n..])
  }

  function TrimEnd(t: seq<byte>): (s: seq<byte>)
    decreases |t|
  {
    var n := Trailing(t);
    if n == 0 then t else TrimEnd(t[..|t| - n])
  }

  predicate OctalDigit(b: byte) { 0x30 <= b <= 0x37 }

  predicate AllOctal(s: seq<byte>) { forall i :: 0 <= i < |s| ==> OctalDigit(s[i]) }

  /** Base-8 digits, most significant first. */
  function OctalValue(s: seq<byte>): nat {
    if s == [] then 0 else 8 * OctalValue(s[..|s| - 1]) + (if OctalDigit(s[|s| - 1]) then s[|s| - 1] - 0x30 else 0)
  }

  /** `u64::from_str_radix(s, 8)`: an optional plus sign, then at least one digit, and the value in range. */
  function ParseOctal(s: seq<byte>): Option<u64> {
    var digits := if s != [] && s[0] == 0x2B then s[1..] else s;
    if digits == [] || !AllOctal(digits) then None
    else if OctalValue(digits) >= 0x1_0000_0000_0000_0000 then None
    else Some(OctalValue(digits))
  }

  /** `octal_field`: blank is zero. */
  function OctalField(raw: seq<byte>): Option<u64> {
    var s := TrimEnd(TrimStart(Utf8.Lossy(raw)));
    if s == [] then Some(0) else ParseOctal(s)
  }

  /** The last `width` octal digits of `n`. */
  function Octal(n: nat, width: nat): (s: seq<byte>)
    ensures |s| == width && forall i :: 0 <= i < width ==> OctalDigit(s[i])
    decreases width
  {
    if width == 0 then [] else Octal(n / 8, width - 1) + [0x30 + n % 8]
  }

  function Pow8(n: nat): (p: nat)
    ensures p > 0
  {
    if n == 0 then 1 else 8 * Pow8(n - 1)
  }

  lemma {:induction false} OctalRoundTrip(n: nat, width: nat)
    requires n < Pow8(width)
    ensures OctalValue(Octal(n, width)) == n
    decreases width
  {
    if width > 0 {
      OctalRoundTrip(n / 8, width - 1);
      var s := Octal(n, width);
      assert s[..|s| - 1] == Octal(n / 8, width - 1);
    }
  }

  lemma DigitsStay(s: seq<byte>)
    requires s != [] && OctalDigit(s[0]) && OctalDigit(s[|s| - 1])
    ensures TrimEnd(TrimStart(s)) == s
  {
  }

  /** Reading a printed field gives its number back. */
  lemma FieldRoundTrip(n: nat, width: nat)
    requires 0 < width <= 21 && n < Pow8(width)
    ensures OctalField(Octal(n, width)) == Some(n)
  {
    var s := Octal(n, width);
    Utf8.AsciiIsText(s);
    Utf8.LossyKeepsText(s);
    DigitsStay(s);
    OctalRoundTrip(n, width);
    Pow8Bound(width);
  }

  lemma {:induction false} Pow8Bound(width: nat)
    requires width <= 21
    ensures Pow8(width) <= 0x8000_0000_0000_0000
    decreases 21 - width
  {
    if width < 21 {
      Pow8Bound(width + 1);
    } else {
      assert Pow8(4) == 0x1000;
      assert Pow8(8) == 0x1000 * Pow8(4) by { assert Pow8(8) == 8 * Pow8(7) && Pow8(7) == 8 * Pow8(6) && Pow8(6) == 8 * Pow8(5) && Pow8(5) == 8 * Pow8(4); }
      assert Pow8(12) == 0x1000 * Pow8(8) by { assert Pow8(12) == 8 * Pow8(11) && Pow8(11) == 8 * Pow8(10) && Pow8(10) == 8 * Pow8(9) && Pow8(9) == 8 * Pow8(8); }
      assert Pow8(16) == 0x1000 * Pow8(12) by { assert Pow8(16) == 8 * Pow8(15) && Pow8(15) == 8 * Pow8(14) && Pow8(14) == 8 * Pow8(13) && Pow8(13) == 8 * Pow8(12); }
      assert Pow8(20) == 0x1000 * Pow8(16) by { assert Pow8(20) == 8 * Pow8(19) && Pow8(19) == 8 * Pow8(18) && Pow8(18) == 8 * Pow8(17) && Pow8(17) == 8 * Pow8(16); }
      assert Pow8(21) == 8 * Pow8(20);
    }
  }

  // ── entries and assets ───────────────────────────────────────────────────

  type Name = seq<byte>
  type Digest = seq<byte>

  const MAGIC: seq<byte> := [0x30, 0x37, 0x30, 0x37, 0x30, 0x37]
  const TRAILER: Name := [0x54, 0x52, 0x41, 0x49, 0x4C, 0x45, 0x52, 0x21, 0x21, 0x21]

  /** An asset to find: its cache name, its path in the archive, and the pins it must meet. */
  datatype Want = Want(name: Name, path: Name, size: nat, pin: Digest)

  /** The cache directory. */
  type Dir = map<Name, seq<byte>>

  datatype FetchError = Ended | Desync | BadOctal | NotTerminated | TrailerReached | FailedValidation

  /** The cache afterwards, and the error that stopped the walk, if any. */
  datatype Outcome = Outcome(dir: Dir, error: Option<FetchError>)

  /** `.{name}.part` */
  function Tmp(name: Name): Name { [0x2E] + name + [0x2E, 0x70, 0x61, 0x72, 0x74] }

  function Find(wanted: seq<Want>, path: Name): (i: Option<nat>)
    ensures i.Some? ==> i.value < |wanted| && wanted[i.value].path == path
    ensures i.None? ==> forall w :: w in wanted ==> w.path != path
  {
    if wanted == [] then None
    else if wanted[0].path == path then Some(0)
    else match Find(wanted[1..], path) case None => None case Some(i) => Some(i + 1)
  }

  function Without(wanted: seq<Want>, i: nat): (rest: seq<Want>)
    requires i < |wanted|
    ensures |rest| == |wanted| - 1
  {
    wanted[..i] + wanted[i + 1..]
  }

  predicate Meets(w: Want, body: seq<byte>, digest: seq<byte> -> Digest) { |body| == w.size && digest(body) == w.pin }

  /** The body streamed to the part file, then renamed or removed. */
  function Keep(dir: Dir, w: Want, body: seq<byte>): Dir { (dir - {Tmp(w.name)})[w.name := body] }

  /** A parsed entry header: its name, and the lengths of the header with the name and of the body. */
  datatype Head = Bad(error: FetchError) | Head(name: Name, used: nat, size: nat)

  function ParseHead(s: seq<byte>): (h: Head)
    ensures h.Head? ==> 76 <= h.used <= |s|
  {
    if |s| < 76 then Bad(Ended)
    else if s[..6] != MAGIC then Bad(Desync)
    else
      match OctalField(s[59..65])
      case None => Bad(BadOctal)
      case Some(nameSize) =>
        match OctalField(s[65..76])
        case None => Bad(BadOctal)
        case Some(fileSize) =>
          if |s| < 76 + nameSize then Bad(Ended)
          else if nameSize == 0 || s[75 + nameSize] != 0 then Bad(NotTerminated)
          else Head(Utf8.Lossy(s[76..75 + nameSize]), 76 + nameSize, fileSize)
  }

  /** The archive loop over the bytes left, until nothing is wanted. */
  function WalkArchive(s: seq<byte>, wanted: seq<Want>, dir: Dir, digest: seq<byte> -> Digest): Outcome
    decreases |s|
  {
    if wanted == [] then Outcome(dir, None)
    else
      match ParseHead(s)
      case Bad(e) => Outcome(dir, Some(e))
      case Head(name, used, size) =>
        if name == TRAILER then Outcome(dir, Some(TrailerReached))
        else
          var rest := s[used..];
          match Find(wanted, name)
          case None => if size > |rest| then Outcome(dir, Some(Ended)) else WalkArchive(rest[size..], wanted, dir, digest)
          case Some(i) =>
            var w := wanted[i];
            if size > |rest| then Outcome(dir - {Tmp(w.name)}, Some(Ended))
            else if !Meets(w, rest[..size], digest) then Outcome(dir - {Tmp(w.name)}, Some(FailedValidation))
            else WalkArchive(rest[size..], Without(wanted, i), Keep(dir, w, rest[..size]), digest)
  }

  /** The header and the name, read piece by piece. */
  method ReadHead(source: Source) returns (h: Head)
    requires source.Valid()
    modifies source
    ensures source.Valid() && h == ParseHead(old(source.Left()))
    ensures h.Head? ==> source.Left() == old(source.Left())[h.used..]
  {
    ghost var s := source.Left();
    var header := source.ReadExact(76);
    if header.None? { return Bad(Ended); }
    var hdr := header.value;
    if hdr[..6] != MAGIC { return Bad(Desync); }
    assert hdr[..6] == s[..6] && hdr[59..65] == s[59..65] && hdr[65..76] == s[65..76];
    var nameSize := OctalField(hdr[59..65]);
    if nameSize.None? { return Bad(BadOctal); }
    var fileSize := OctalField(hdr[65..76]);
    if fileSize.None? { return Bad(BadOctal); }
    var n: nat := nameSize.value;
    var named := source.ReadExact(n);
    if named.None? { return Bad(Ended); }
    var nameB := named.value;
    assert nameB == s[76..76 + n];
    if nameB == [] || nameB[|nameB| - 1] != 0 { return Bad(NotTerminated); }
    assert nameB[..n - 1] == s[76..75 + n];
    h := Head(Utf8.Lossy(nameB[..n - 1]), 76 + n, fileSize.value);
  }

  /** The cache directory the walk writes to. */
  class Cache {
    var files: Dir

    constructor (files: Dir)
      ensures this.files == files
    {
      this.files := files;
    }

    /** Stream the entry to its part file, check it, and rename or remove it. */
    method Store(source: Source, w: Want, size: nat, digest: seq<byte> -> Digest) returns (error: Option<FetchError>)
      requires source.Valid()
      modifies this, source
      ensures source.Valid()
      ensures var s := old(source.Left());
              if size > |s| then error == Some(Ended) && files == old(files) - {Tmp(w.name)}
              else if !Meets(w, s[..size], digest) then error == Some(FailedValidation) && files == old(files) - {Tmp(w.name)}
              else error == None && files == Keep(old(files), w, s[..size]) && source.Left() == s[size..]
    {
      var written, ok := source.Extract(size);
      files := files[Tmp(w.name) := written];
      if !ok {
        files := files - {Tmp(w.name)};
        assert files == old(files) - {Tmp(w.name)};
        return Some(Ended);
      }
      if |written| != w.size || digest(written) != w.pin {
        files := files - {Tmp(w.name)};
        assert files == old(files) - {Tmp(w.name)};
        return Some(FailedValidation);
      }
      files := (files - {Tmp(w.name)})[w.name := written];
      assert files == Keep(old(files), w, written);
      error := None;
    }

    /** The loop of `ensure_cache`, after the archive's prefix has been skipped. */
    method FetchAssets(source: Source, wanted0: seq<Want>, digest: seq<byte> -> Digest) returns (error: Option<FetchError>)
      requires source.Valid()
      modifies this, source
      ensures Outcome(files, error) == WalkArchive(old(source.Left()), wanted0, old(files), digest)
    {
      var wanted, total, found := wanted0, |wanted0|, 0;
      while found < total
        invariant source.Valid() && found + |wanted| == total
        invariant WalkArchive(source.Left(), wanted, files, digest) == WalkArchive(old(source.Left()), wanted0, old(files), digest)
        decreases |source.Left()|
      {
        ghost var s := source.Left();
        var head := ReadHead(source);
        if head.Bad? { return Some(head.error); }
        if head.name == TRAILER { return Some(TrailerReached); }
        var index := Find(wanted, head.name);
        if index.Some? {
          var failed := Store(source, wanted[index.value], head.size, digest);
          if failed.Some? { return failed; }
          found := found + 1;
          wanted := Without(wanted, index.value);
          continue;
        }
        var ok := source.Skip(head.size);
        if !ok { return Some(Ended); }
      }
      error := None;
    }
  }
}
