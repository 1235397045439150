/** The exchange envelope of crates/perun-cli/src/sap.rs: one base64 value under one key. */
module PlistEnvelope {
  import opened Bytes
  import opened Wrappers
  import opened Base64
  import Utf8

  const XML: seq<byte> := [0x3C, 0x3F, 0x78, 0x6D, 0x6C, 0x20, 0x76, 0x65, 0x72, 0x73, 0x69, 0x6F, 0x6E, 0x3D, 0x22, 0x31, 0x2E, 0x30, 0x22, 0x3F, 0x3E]
  const PLIST: seq<byte> := [0x3C, 0x70, 0x6C, 0x69, 0x73, 0x74, 0x3E]
  const DICT: seq<byte> := [0x3C, 0x64, 0x69, 0x63, 0x74, 0x3E]
  const KEY_OPEN: seq<byte> := [0x3C, 0x6B, 0x65, 0x79, 0x3E]
  const KEY_CLOSE: seq<byte> := [0x3C, 0x2F, 0x6B, 0x65, 0x79, 0x3E]
  const DATA_OPEN: seq<byte> := [0x3C, 0x64, 0x61, 0x74, 0x61, 0x3E]
  const DATA_CLOSE: seq<byte> := [0x3C, 0x2F, 0x64, 0x61, 0x74, 0x61, 0x3E]
  const DICT_CLOSE: seq<byte> := [0x3C, 0x2F, 0x64, 0x69, 0x63, 0x74, 0x3E]
  const PLIST_CLOSE: seq<byte> := [0x3C, 0x2F, 0x70, 0x6C, 0x69, 0x73, 0x74, 0x3E]

  const LESS: byte := 0x3C

  /** The index of the first occurrence of `pattern`. */
  function Find(text: seq<byte>, pattern: seq<byte>): (i: Option<nat>)
    ensures i.Some? ==> i.value + |pattern| <= |text| && text[i.value..i.value + |pattern|] == pattern
  {
    if pattern <= text then Some(0)
    else if text == [] then None
    else match Find(text[1..], pattern) case None => None case Some(i) => Some(i + 1)
  }

  /** `pattern` stands at `i`. */
  predicate StandsAt(text: seq<byte>, pattern: seq<byte>, i: nat) { i + |pattern| <= |text| && text[i..i + |pattern|] == pattern }

  /** Its first occurrence is at `i`. */
  ghost predicate FirstAt(text: seq<byte>, pattern: seq<byte>, i: nat) {
    StandsAt(text, pattern, i) && forall j :: 0 <= j < i ==> !StandsAt(text, pattern, j)
  }

  lemma {:induction false} FindIsFirst(text: seq<byte>, pattern: seq<byte>, i: nat)
    requires FirstAt(text, pattern, i)
    ensures Find(text, pattern) == Some(i)
    decreases |text|
  {
    if i > 0 {
      assert !StandsAt(text, pattern, 0);
      LaterStands(text, pattern);
      FindIsFirst(text[1..], pattern, i - 1);
    }
  }

  lemma LaterStands(text: seq<byte>, pattern: seq<byte>)
    requires text != []
    ensures forall j: nat :: StandsAt(text[1..], pattern, j) <==> StandsAt(text, pattern, j + 1)
  {
    forall j: nat ensures StandsAt(text[1..], pattern, j) <==> StandsAt(text, pattern, j + 1) {
      if j + 1 + |pattern| <= |text| { assert text[1..][j..j + |pattern|] == text[j + 1..j + 1 + |pattern|]; }
    }
  }

  lemma AfterIs(text: seq<byte>, pattern: seq<byte>, k: nat)
    requires FirstAt(text, pattern, k)
    ensures AfterFirst(text, pattern) == Some(text[k + |pattern|..])
  {
    FindIsFirst(text, pattern, k);
  }

  lemma BetweenIs(text: seq<byte>, open: seq<byte>, close: seq<byte>, d: nat, e: nat)
    requires FirstAt(text, open, d) && FirstAt(text[d + |open|..], close, e)
    ensures Between(text, open, close) == Some(text[d + |open|..][..e])
  {
    AfterIs(text, open, d);
    FindIsFirst(text[d + |open|..], close, e);
  }

  /** The answer on any text: what stands between the first opening and closing data tags after the first such key, less its blanks. */
  lemma DataTextIs(text: seq<byte>, key: seq<byte>, k: nat, rest: seq<byte>, d: nat, e: nat)
    requires FirstAt(text, KEY_OPEN + key + KEY_CLOSE, k) && rest == text[k + |KEY_OPEN + key + KEY_CLOSE|..]
    requires FirstAt(rest, DATA_OPEN, d) && FirstAt(rest[d + |DATA_OPEN|..], DATA_CLOSE, e)
    ensures DataText(text, key) == Some(Strip(rest[d + |DATA_OPEN|..][..e]))
  {
    AfterIs(text, KEY_OPEN + key + KEY_CLOSE, k);
    BetweenIs(rest, DATA_OPEN, DATA_CLOSE, d, e);
  }

  /** What never stands in the text is not found. */
  lemma {:induction false} FindNowhere(text: seq<byte>, pattern: seq<byte>)
    requires forall j: nat :: !StandsAt(text, pattern, j)
    ensures Find(text, pattern) == None
    decreases |text|
  {
    assert !StandsAt(text, pattern, 0);
    if text != [] {
      LaterStands(text, pattern);
      forall j: nat ensures !StandsAt(text[1..], pattern, j) { assert !StandsAt(text, pattern, j + 1); }
      FindNowhere(text[1..], pattern);
    }
  }

  /** `replace(['\n', '\r', ' '], "")` */
  function Strip(text: seq<byte>): seq<byte> {
    if text == [] then []
    else (if text[0] == 0x0A || text[0] == 0x0D || text[0] == 0x20 then [] else [text[0]]) + Strip(text[1..])
  }

  function KeyPattern(key: seq<byte>): seq<byte> { KEY_OPEN + key + KEY_CLOSE }

  /** What follows the first occurrence of `pattern`. */
  function AfterFirst(text: seq<byte>, pattern: seq<byte>): Option<seq<byte>> {
    match Find(text, pattern) case None => None case Some(k) => Some(text[k + |pattern|..])
  }

  /** What stands between the first `open` and the first `close` after it. */
  function Between(text: seq<byte>, open: seq<byte>, close: seq<byte>): Option<seq<byte>> {
    match AfterFirst(text, open)
    case None => None
    case Some(rest) => match Find(rest, close) case None => None case Some(e) => Some(rest[..e])
  }

  /** The base64 text of the first data element after the key; its digits are decoded. */
  function DataText(text: seq<byte>, key: seq<byte>): Option<seq<byte>> {
    match AfterFirst(text, KeyPattern(key))
    case None => None
    case Some(rest) => match Between(rest, DATA_OPEN, DATA_CLOSE) case None => None case Some(t) => Some(Strip(t))
  }

  method PlistExtract(buffer: seq<byte>, key: seq<byte>) returns (out: Option<seq<byte>>)
    ensures var t := DataText(Utf8.Lossy(buffer), key);
            && (out.Some? <==> t.Some? && Digits(t.value).Some?)
            && (out.Some? ==> Spells(Digits(t.value).value, out.value))
  {
    var text := Utf8.Lossy(buffer);
    var b64 := DataText(text, key);
    if b64.None? { return None; }
    out := Decode(b64.value);
  }

  /** The request body of `http_post_plist`. */
  function Envelope(key: seq<byte>, b64: seq<byte>): seq<byte> {
    XML + PLIST + DICT + (KeyPattern(key) + (DATA_OPEN + (b64 + (DATA_CLOSE + (DICT_CLOSE + PLIST_CLOSE)))))
  }

  method Request(key: seq<byte>, data: seq<byte>) returns (body: seq<byte>)
    ensures body == Envelope(key, Encode(data))
  {
    var b64 := EncodeAll(data);
    body := XML + PLIST + DICT + KEY_OPEN + key + KEY_CLOSE + DATA_OPEN + b64 + DATA_CLOSE + DICT_CLOSE + PLIST_CLOSE;
    assert body == Envelope(key, b64);
  }

  // ── finding the parts again ──────────────────────────────────────────────

  /** No tag of `prefix`, read on into `next`, starts like a key. */
  predicate NoKeyStart(prefix: seq<byte>, next: byte) {
    prefix == [] || (!(prefix[0] == LESS && (prefix + [next])[1] == 0x6B) && NoKeyStart(prefix[1..], next))
  }

  /** A pattern starting with `<k` is not found before `rest` when the prefix has no such pair. */
  lemma {:induction false} FindPast(prefix: seq<byte>, pattern: seq<byte>, rest: seq<byte>)
    requires |pattern| >= 2 && pattern[0] == LESS && pattern[1] == 0x6B && pattern <= rest && NoKeyStart(prefix, rest[0])
    ensures Find(prefix + rest, pattern) == Some(|prefix|)
  {
    var text := prefix + rest;
    if prefix == [] {
      assert text == rest;
    } else {
      assert text[1..] == prefix[1..] + rest;
      assert text[1] == (prefix + [rest[0]])[1];
      FindPast(prefix[1..], pattern, rest);
    }
  }

  /** A pattern starting with `<` is found right after text without one. */
  lemma {:induction false} FindAfter(plain: seq<byte>, pattern: seq<byte>, rest: seq<byte>)
    requires pattern != [] && pattern[0] == LESS && LESS !in plain
    ensures Find(plain + (pattern + rest), pattern) == Some(|plain|)
  {
    var text := plain + (pattern + rest);
    if plain == [] {
      assert text == pattern + rest;
    } else {
      assert text[1..] == plain[1..] + (pattern + rest);
      assert text[0] == plain[0];
      FindAfter(plain[1..], pattern, rest);
    }
  }

  lemma {:induction false} NoKeyAppend(a: seq<byte>, b: seq<byte>, next: byte)
    requires b != [] && NoKeyStart(a, b[0]) && NoKeyStart(b, next)
    ensures NoKeyStart(a + b, next)
  {
    if a == [] {
      assert a + b == b;
    } else {
      assert (a + b)[1..] == a[1..] + b;
      assert (a + b + [next])[1] == (a + [b[0]])[1];
      NoKeyAppend(a[1..], b, next);
    }
  }

  lemma {:induction false} OneTag(tag: seq<byte>, next: byte)
    requires next != 0x6B && forall i :: 0 <= i < |tag| && tag[i] == LESS ==> i + 1 < |tag| && tag[i + 1] != 0x6B
    ensures NoKeyStart(tag, next)
  {
    if tag != [] { OneTag(tag[1..], next); }
  }

  lemma XmlHasNoKey()
    ensures NoKeyStart(XML, LESS)
  {
    OneTag(XML, LESS);
  }

  lemma PlistHasNoKey()
    ensures NoKeyStart(PLIST, LESS)
  {
  }

  lemma DictHasNoKey()
    ensures NoKeyStart(DICT, LESS)
  {
  }

  lemma HeaderHasNoKey()
    ensures NoKeyStart(XML + PLIST + DICT, LESS)
  {
    XmlHasNoKey();
    PlistHasNoKey();
    DictHasNoKey();
    NoKeyThree(XML, PLIST, DICT, LESS);
  }

  lemma NoKeyThree(a: seq<byte>, b: seq<byte>, c: seq<byte>, next: byte)
    requires b != [] && c != [] && b[0] == next && c[0] == next
    requires NoKeyStart(a, next) && NoKeyStart(b, next) && NoKeyStart(c, next)
    ensures NoKeyStart(a + b + c, next)
  {
    NoKeyAppend(a, b, next);
    NoKeyAppend(a + b, c, next);
  }

  /** Text of base64 digits and pads only. */
  predicate Plain(t: seq<byte>) {
    forall i :: 0 <= i < |t| ==> t[i] != LESS && t[i] != 0x0A && t[i] != 0x0D && t[i] != 0x20 && t[i] < 0x80
  }

  lemma {:induction false} EncodePlain(data: seq<byte>)
    ensures Plain(Encode(data))
  {
    if |data| > 3 {
      EncodePlain(data[3..]);
      ChunkPlain(data[..3]);
    } else if data != [] {
      ChunkPlain(data);
    }
  }

  lemma ChunkPlain(chunk: seq<byte>)
    requires 1 <= |chunk| <= 3
    ensures Plain(EncodeChunk(chunk))
  {
  }

  lemma {:induction false} StripPlain(t: seq<byte>)
    requires Plain(t)
    ensures Strip(t) == t
  {
    if t != [] { StripPlain(t[1..]); }
  }

  /** The first data element after the key is the one the envelope put there, for every key. */
  lemma EnvelopeText(key: seq<byte>, b64: seq<byte>)
    requires Plain(b64)
    ensures DataText(Envelope(key, b64), key) == Some(b64)
  {
    var header, end := XML + PLIST + DICT, DICT_CLOSE + PLIST_CLOSE;
    var rest := DATA_OPEN + (b64 + (DATA_CLOSE + end));
    var pattern := KeyPattern(key);
    HeaderHasNoKey();
    FindPast(header, pattern, pattern + rest);
    AfterPattern(header, pattern, rest);
    DataAfterKey(b64, end, rest);
  }

  lemma AfterPattern(header: seq<byte>, pattern: seq<byte>, rest: seq<byte>)
    ensures (header + (pattern + rest))[|header| + |pattern|..] == rest
  {
  }

  /** The data element that follows the key at once. */
  lemma DataAfterKey(b64: seq<byte>, end: seq<byte>, rest: seq<byte>)
    requires Plain(b64) && rest == DATA_OPEN + (b64 + (DATA_CLOSE + end))
    ensures Between(rest, DATA_OPEN, DATA_CLOSE) == Some(b64) && Strip(b64) == b64
  {
    var after := b64 + (DATA_CLOSE + end);
    OpensAtOnce(DATA_OPEN, after);
    FindAfter(b64, DATA_CLOSE, end);
    assert after[..|b64|] == b64;
    StripPlain(b64);
  }

  lemma OpensAtOnce(open: seq<byte>, after: seq<byte>)
    ensures AfterFirst(open + after, open) == Some(after)
  {
    assert open <= open + after && (open + after)[|open|..] == after;
  }

  lemma {:induction false} TextAppend(a: seq<byte>, b: seq<byte>)
    requires Utf8.IsText(a) && Utf8.IsText(b)
    ensures Utf8.IsText(a + b)
    decreases |a|
  {
    if a == [] {
      assert a + b == b;
    } else {
      var w := Utf8.FirstChunk(a).width;
      FirstChunkStays(a, b);
      assert (a + b)[w..] == a[w..] + b;
      TextAppend(a[w..], b);
    }
  }

  lemma FirstChunkStays(a: seq<byte>, b: seq<byte>)
    requires a != [] && Utf8.FirstChunk(a).valid
    ensures Utf8.FirstChunk(a + b) == Utf8.FirstChunk(a)
  {
  }

  predicate Ascii(s: seq<byte>) { forall i :: 0 <= i < |s| ==> s[i] < 0x80 }

  lemma TagsAreAscii()
    ensures Ascii(XML) && Ascii(PLIST) && Ascii(DICT) && Ascii(KEY_OPEN) && Ascii(KEY_CLOSE)
    ensures Ascii(DATA_OPEN) && Ascii(DATA_CLOSE) && Ascii(DICT_CLOSE) && Ascii(PLIST_CLOSE)
  {
  }

  lemma JoinedIsText(header: seq<byte>, open: seq<byte>, key: seq<byte>, close: seq<byte>, tail: seq<byte>)
    requires Ascii(header) && Ascii(open) && Utf8.IsText(key) && Ascii(close) && Ascii(tail)
    ensures Utf8.IsText(header + (open + key + close + tail))
  {
    Utf8.AsciiIsText(header);
    Utf8.AsciiIsText(open);
    Utf8.AsciiIsText(close);
    Utf8.AsciiIsText(tail);
    TextAppend(open, key);
    TextAppend(open + key, close);
    TextAppend(open + key + close, tail);
    TextAppend(header, open + key + close + tail);
  }

  lemma AsciiAppend(a: seq<byte>, b: seq<byte>)
    requires Ascii(a) && Ascii(b)
    ensures Ascii(a + b)
  {
  }

  lemma EnvelopeIsText(key: seq<byte>, b64: seq<byte>)
    requires Utf8.IsText(key) && Plain(b64)
    ensures Utf8.IsText(Envelope(key, b64))
  {
    TagsAreAscii();
    assert Ascii(b64);
    AsciiAppend(XML, PLIST);
    AsciiAppend(XML + PLIST, DICT);
    AsciiAppend(DICT_CLOSE, PLIST_CLOSE);
    AsciiAppend(DATA_CLOSE, DICT_CLOSE + PLIST_CLOSE);
    AsciiAppend(b64, DATA_CLOSE + (DICT_CLOSE + PLIST_CLOSE));
    AsciiAppend(DATA_OPEN, b64 + (DATA_CLOSE + (DICT_CLOSE + PLIST_CLOSE)));
    JoinedIsText(XML + PLIST + DICT, KEY_OPEN, key, KEY_CLOSE, DATA_OPEN + (b64 + (DATA_CLOSE + (DICT_CLOSE + PLIST_CLOSE))));
  }

  /** Extracting from the request envelope can only answer the data that was put in, for every key and all data. */
  lemma EnvelopeRoundTrip(key: seq<byte>, data: seq<byte>, out: seq<byte>)
    requires Utf8.IsText(key)
    ensures var t := DataText(Utf8.Lossy(Envelope(key, Encode(data))), key);
            t.Some? && Digits(t.value).Some? && (Spells(Digits(t.value).value, out) <==> out == data)
  {
    EncodePlain(data);
    EnvelopeIsText(key, Encode(data));
    Utf8.LossyKeepsText(Envelope(key, Encode(data)));
    EnvelopeText(key, Encode(data));
    RoundTrip(data, out);
  }
}
