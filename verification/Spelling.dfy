/** The fixed byte strings of the formats, spelled in letters. */
module Spelling {
  import opened Bytes
  import B = Base64
  import E = PlistEnvelope
  import C = Cpio
  import S = Streams
  import L = MachLoader
  import P = MachParse

  predicate Spells(bs: seq<byte>, text: string) { |bs| == |text| && forall i :: 0 <= i < |bs| ==> bs[i] == text[i] as int }

  /** The sixty-four digits: upper-case letters, lower-case letters, numerals, plus and slash; and the pad. */
  lemma AlphabetIs(i: nat)
    ensures i < 26 ==> B.Digit(i) == 'A' as int + i && B.Digit(26 + i) == 'a' as int + i
    ensures i < 10 ==> B.Digit(52 + i) == '0' as int + i
    ensures B.Digit(62) == '+' as int && B.Digit(63) == '/' as int && B.PAD == '=' as int
  {
  }

  lemma EnvelopeIs()
    ensures Spells(E.XML, "<?xml version=\"1.0\"?>") && Spells(E.PLIST, "<plist>") && Spells(E.DICT, "<dict>")
    ensures Spells(E.DICT_CLOSE, "</dict>") && Spells(E.PLIST_CLOSE, "</plist>")
    ensures Spells(E.KEY_OPEN, "<key>") && Spells(E.KEY_CLOSE, "</key>") && Spells(E.DATA_OPEN, "<data>") && Spells(E.DATA_CLOSE, "</data>")
  {
  }

  /** Stripping keeps exactly the bytes that are neither line breaks nor spaces. */
  lemma {:induction false} StripKeeps(text: seq<byte>, b: byte)
    ensures multiset(E.Strip(text))[b] == if b in {'\n' as int, '\r' as int, ' ' as int} then 0 else multiset(text)[b]
  {
    if text != [] {
      StripKeeps(text[1..], b);
      assert text == [text[0]] + text[1..];
    }
  }

  lemma ArchiveIs(name: C.Name)
    ensures Spells(C.MAGIC, "070707") && Spells(C.TRAILER, "TRAILER!!!") && Spells(S.BZ_HEADER, "BZh9") && S.WINDOW == 8 * 1024 * 1024
    ensures |C.Tmp(name)| == |name| + 6 && C.Tmp(name)[0] == '.' as int && C.Tmp(name)[1..1 + |name|] == name && Spells(C.Tmp(name)[1 + |name|..], ".part")
  {
  }

  lemma SegmentNamesAre()
    ensures Spells(L.PAGEZERO, "__PAGEZERO") && Spells(L.TEXT, "__TEXT") && Spells(P.SECTION, "__text")
  {
  }
}
