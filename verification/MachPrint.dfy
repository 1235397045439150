/**
 * The other direction of the load-command parser: an image printed field by field, in the layout of
 * the format, and the proof that the parser returns exactly what was printed.
 */
module MachPrint {
  import opened Bytes
  import opened Wrappers
  import opened MachParse
  import L = MachLoader
  import D = DyldStream
  import P = DyldProgram
  import Utf8

  // ── the printer ──────────────────────────────────────────────────────────

  type Rest28 = r: seq<byte> | |r| == 28 witness seq(28, _ => 0)

  type Rest8 = r: seq<byte> | |r| == 8 witness seq(8, _ => 0)

  datatype Section = Section(sectname: L.Name, segname: L.Name, addr: u64, size: u64, offset: u32, rest: Rest28)

  /** `Other` is any command the parser keeps without reading it. */
  datatype Command = Seg(segname: L.Name, vmaddr: u64, vmsize: u64, fileoff: u64, filesize: u64, initprot: u32, maxprot: u32, flags: u32, sections: seq<Section>)
                   | Sym(symoff: u32, nsyms: u32, stroff: u32, strsize: u32)
                   | Dyld(only: bool, words: DyldFields)
                   | Other(cmd: u32, payload: seq<byte>)

  predicate Printable(c: Command) {
    match c
    case Seg(_, _, _, _, _, _, _, _, sections) => 72 + 80 * |sections| < 0x1_0000_0000
    case Other(cmd, payload) => cmd != 0x19 && cmd != 0x02 && cmd != 0x22 && cmd != 0x8000_0022 && 8 + |payload| < 0x1_0000_0000
    case _ => true
  }

  predicate AllPrintable(cs: seq<Command>) { cs == [] || (Printable(cs[0]) && AllPrintable(cs[1..])) }

  function Le32(v: u32): (bs: seq<byte>)
    ensures |bs| == 4
  {
    LittleEndian(v, 4)
  }

  function Le64(v: u64): (bs: seq<byte>)
    ensures |bs| == 8
  {
    LittleEndian(v, 8)
  }

  function Flat(fields: seq<seq<byte>>): seq<byte> {
    if fields == [] then [] else fields[0] + Flat(fields[1..])
  }

  function SectionFields(s: Section): seq<seq<byte>> { [s.sectname, s.segname, Le64(s.addr), Le64(s.size), Le32(s.offset), s.rest] }

  function PrintSection(s: Section): (bs: seq<byte>)
    ensures |bs| == 80
  {
    SectionOffsets(SectionFields(s));
    WholeLength(SectionFields(s));
    Flat(SectionFields(s))
  }

  function PrintSections(ss: seq<Section>): (bs: seq<byte>)
    ensures |bs| == 80 * |ss|
  {
    if ss == [] then [] else PrintSection(ss[0]) + PrintSections(ss[1..])
  }

  function PrintWords(ws: seq<u32>): (bs: seq<byte>)
    ensures |bs| == 4 * |ws|
  {
    if ws == [] then [] else Le32(ws[0]) + PrintWords(ws[1..])
  }

  /** The fields of a command, its number and its size first. */
  function FieldsOf(c: Command): seq<seq<byte>>
    requires Printable(c)
  {
    match c
    case Seg(segname, vmaddr, vmsize, fileoff, filesize, initprot, maxprot, flags, sections) =>
      [Le32(0x19), Le32(72 + 80 * |sections|), segname, Le64(vmaddr), Le64(vmsize), Le64(fileoff), Le64(filesize),
       Le32(initprot), Le32(maxprot), Le32(|sections|), Le32(flags), PrintSections(sections)]
    case Sym(symoff, nsyms, stroff, strsize) => [Le32(0x02), Le32(24), Le32(symoff), Le32(nsyms), Le32(stroff), Le32(strsize)]
    case Dyld(only, words) => [Le32(if only then 0x8000_0022 else 0x22), Le32(48), PrintWords(words)]
    case Other(cmd, payload) => [Le32(cmd), Le32(8 + |payload|), payload]
  }

  function PrintCommand(c: Command): seq<byte>
    requires Printable(c)
  {
    Flat(FieldsOf(c))
  }

  function Length(c: Command): nat {
    match c
    case Seg(_, _, _, _, _, _, _, _, sections) => 72 + 80 * |sections|
    case Sym(_, _, _, _) => 24
    case Dyld(_, _) => 48
    case Other(_, payload) => 8 + |payload|
  }

  /** Each command printed. */
  function Printed(cs: seq<Command>): (chunks: seq<seq<byte>>)
    requires AllPrintable(cs)
    ensures |chunks| == |cs|
  {
    if cs == [] then [] else [PrintCommand(cs[0])] + Printed(cs[1..])
  }

  function PrintCommands(cs: seq<Command>): seq<byte>
    requires AllPrintable(cs)
  {
    Flat(Printed(cs))
  }

  /** The header: magic, cpu type, subtype and file type, the number and the size of the commands, flags. */
  function HeaderFields(types: Rest8, count: u32, size: u32, flags: Rest8): seq<seq<byte>> {
    [Le32(0xFEED_FACF), Le32(0x0100_0007), types, Le32(count), Le32(size), flags]
  }

  function PrintHeader(types: Rest8, count: u32, size: u32, flags: Rest8): (bs: seq<byte>)
    ensures |bs| == 32
  {
    HeaderOffsets(HeaderFields(types, count, size, flags));
    WholeLength(HeaderFields(types, count, size, flags));
    Flat(HeaderFields(types, count, size, flags))
  }

  // ── what was printed ─────────────────────────────────────────────────────

  function SegmentIn(c: Command): seq<Segment64> {
    if c.Seg? then
      [Segment64(range := L.Segment(name := c.segname, vmaddr := c.vmaddr, vmsize := c.vmsize, fileoff := c.fileoff, filesize := c.filesize),
                 initprot := c.initprot, maxprot := c.maxprot)]
    else []
  }

  function SegmentsOf(cs: seq<Command>): seq<Segment64> {
    if cs == [] then [] else SegmentIn(cs[0]) + SegmentsOf(cs[1..])
  }

  function NumberOf(c: Command): u32 {
    match c
    case Seg(_, _, _, _, _, _, _, _, _) => 0x19
    case Sym(_, _, _, _) => 0x02
    case Dyld(only, _) => if only then 0x8000_0022 else 0x22
    case Other(cmd, _) => cmd
  }

  /** Where each command stands. */
  function ListOf(cs: seq<Command>, at: nat): seq<LoadCommand>
    requires AllPrintable(cs)
  {
    if cs == [] then []
    else [LoadCommand(cmd := NumberOf(cs[0]), cmdsize := Length(cs[0]), off := at)] + ListOf(cs[1..], at + Length(cs[0]))
  }

  /** The last symbol table, or `found`. */
  function SymtabIn(cs: seq<Command>, found: Option<Symtab>): Option<Symtab> {
    if cs == [] then found
    else SymtabIn(cs[1..], if cs[0].Sym? then Some(Symtab(symoff := cs[0].symoff, nsyms := cs[0].nsyms, stroff := cs[0].stroff, strsize := cs[0].strsize)) else found)
  }

  function DyldIn(cs: seq<Command>, found: Option<DyldFields>): Option<DyldFields> {
    if cs == [] then found else DyldIn(cs[1..], if cs[0].Dyld? then Some(cs[0].words) else found)
  }

  /** Everything the commands say, added to `acc` in order. */
  function Collected(cs: seq<Command>, at: nat, acc: Commands): Commands
    requires AllPrintable(cs)
  {
    if cs == [] then acc else Collected(cs[1..], at + Length(cs[0]), CollectOne(cs[0], at, acc))
  }

  function CollectOne(c: Command, at: nat, acc: Commands): Commands
    requires Printable(c)
  {
    Commands(acc.segments + SegmentIn(c), acc.list + [LoadCommand(cmd := NumberOf(c), cmdsize := Length(c), off := at)],
             if c.Sym? then Some(Symtab(symoff := c.symoff, nsyms := c.nsyms, stroff := c.stroff, strsize := c.strsize)) else acc.symtab,
             if c.Dyld? then Some(c.words) else acc.dyld)
  }

  /** `__text` in any of these sections: the last one so named. */
  function TextIn(ss: seq<Section>, found: Option<Text>): Option<Text> {
    if ss == [] then found
    else TextIn(ss[1..], if ss[0].sectname[..6] == [0x5F, 0x5F, 0x74, 0x65, 0x78, 0x74] then Some(Text(off := ss[0].offset, size := ss[0].size)) else found)
  }

  function TextOfAll(cs: seq<Command>, found: Option<Text>): Option<Text> {
    if cs == [] then found
    else TextOfAll(cs[1..], if cs[0].Seg? && cs[0].segname[..6] == [0x5F, 0x5F, 0x54, 0x45, 0x58, 0x54] then TextIn(cs[0].sections, found) else found)
  }

  // ── reading back ─────────────────────────────────────────────────────────

  /** `bs` stands at `off` of `d`. */
  predicate At(d: seq<byte>, off: nat, bs: seq<byte>) { off + |bs| <= |d| && d[off..off + |bs|] == bs }

  lemma AtSplit(d: seq<byte>, off: nat, a: seq<byte>, b: seq<byte>)
    requires At(d, off, a + b)
    ensures At(d, off, a) && At(d, off + |a|, b)
  {
    var whole := d[off..off + |a + b|];
    assert d[off..off + |a|] == whole[..|a|] && d[off + |a|..off + |a + b|] == whole[|a|..];
  }

  lemma Back32(d: seq<byte>, off: nat, v: u32)
    requires At(d, off, Le32(v))
    ensures ReadLe32(d, off) == v
  {
    FourBytes(v);
    FourDigits(v);
    var s := d[off..off + 4];
    assert d[off] == s[0] && d[off + 1] == s[1] && d[off + 2] == s[2] && d[off + 3] == s[3];
  }

  lemma FourDigits(v: u32)
    ensures v % 0x100 + 0x100 * (v / 0x100 % 0x100) + 0x1_0000 * (v / 0x1_0000 % 0x100) + 0x100_0000 * (v / 0x100_0000 % 0x100) == v
  {
  }

  /** Eight bytes are two words. */
  lemma {:induction false} Halves(v: nat, n: nat)
    ensures LittleEndian(v, 4 + n) == LittleEndian(v, 4) + LittleEndian(v / 0x1_0000_0000, n)
  {
    var a, b, c, d := v / 0x100, v / 0x1_0000, v / 0x100_0000, v / 0x1_0000_0000;
    assert a / 0x100 == b && b / 0x100 == c && c / 0x100 == d;
    LeNext(v, 3 + n);
    LeNext(a, 2 + n);
    LeNext(b, 1 + n);
    LeNext(c, n);
    FourBytes(v);
  }

  lemma FourBytes(v: nat)
    ensures LittleEndian(v, 4) == [v % 0x100, v / 0x100 % 0x100, v / 0x1_0000 % 0x100, v / 0x100_0000 % 0x100]
  {
    var a, b, c := v / 0x100, v / 0x1_0000, v / 0x100_0000;
    assert a / 0x100 == b && b / 0x100 == c;
    LeNext(v, 3);
    LeNext(a, 2);
    LeNext(b, 1);
    LeNext(c, 0);
  }

  lemma LowWord(v: u64)
    ensures LittleEndian(v, 4) == Le32(v % 0x1_0000_0000)
  {
    LowFour(v % 0x1_0000_0000, v / 0x1_0000_0000);
  }

  lemma LowFour(w: nat, q: nat)
    ensures LittleEndian(w + 0x1_0000_0000 * q, 4) == LittleEndian(w, 4)
  {
    var v := w + 0x1_0000_0000 * q;
    LowByte(w, 0x100_0000 * q);
    LowByte(w / 0x100, 0x1_0000 * q);
    LowByte(w / 0x100 / 0x100, 0x100 * q);
    LowByte(w / 0x100 / 0x100 / 0x100, q);
    LeNext(v, 3);
    LeNext(w, 3);
    LeNext(v / 0x100, 2);
    LeNext(w / 0x100, 2);
    LeNext(v / 0x100 / 0x100, 1);
    LeNext(w / 0x100 / 0x100, 1);
    LeNext(v / 0x100 / 0x100 / 0x100, 0);
    LeNext(w / 0x100 / 0x100 / 0x100, 0);
  }

  lemma LeNext(v: nat, n: nat)
    ensures LittleEndian(v, n + 1) == [v % 0x100] + LittleEndian(v / 0x100, n)
  {
  }

  lemma Back64(d: seq<byte>, off: nat, v: u64)
    requires At(d, off, Le64(v))
    ensures ReadLe64(d, off) == v
  {
    Halves(v, 4);
    LowWord(v);
    AtSplit(d, off, Le32(v % 0x1_0000_0000), Le32(v / 0x1_0000_0000));
    Back32(d, off, v % 0x1_0000_0000);
    Back32(d, off + 4, v / 0x1_0000_0000);
  }

  /** The next field of a list of fields. */
  lemma Peel(d: seq<byte>, at: nat, fields: seq<seq<byte>>, k: nat)
    requires k < |fields| && At(d, at, Flat(fields[k..]))
    ensures At(d, at, fields[k]) && At(d, at + |fields[k]|, Flat(fields[k + 1..]))
  {
    assert fields[k..][0] == fields[k] && fields[k..][1..] == fields[k + 1..];
    AtSplit(d, at, fields[k], Flat(fields[k + 1..]));
  }

  lemma PeelFirst(d: seq<byte>, at: nat, fields: seq<seq<byte>>)
    requires fields != [] && At(d, at, Flat(fields))
    ensures At(d, at, fields[0]) && At(d, at + |fields[0]|, Flat(fields[1..]))
  {
    AtSplit(d, at, fields[0], Flat(fields[1..]));
  }

  /** The summed lengths of the first `k` fields. */
  function Lengths(fields: seq<seq<byte>>, k: nat): nat
    requires k <= |fields|
  {
    if k == 0 then 0 else Lengths(fields, k - 1) + |fields[k - 1]|
  }

  lemma {:induction false} PeelTo(d: seq<byte>, off: nat, fields: seq<seq<byte>>, k: nat)
    requires k <= |fields| && At(d, off, Flat(fields))
    ensures At(d, off + Lengths(fields, k), Flat(fields[k..]))
    decreases k
  {
    if k == 0 {
      assert fields[0..] == fields;
    } else {
      PeelTo(d, off, fields, k - 1);
      Peel(d, off + Lengths(fields, k - 1), fields, k - 1);
    }
  }

  /** Every field stands behind the ones before it. */
  lemma FieldAt(d: seq<byte>, off: nat, fields: seq<seq<byte>>, k: nat, at: nat)
    requires k < |fields| && At(d, off, Flat(fields)) && at == off + Lengths(fields, k)
    ensures At(d, at, fields[k])
  {
    PeelTo(d, off, fields, k);
    Peel(d, off + Lengths(fields, k), fields, k);
  }

  lemma {:induction false} FlatLength(fields: seq<seq<byte>>, k: nat)
    requires k <= |fields|
    ensures |Flat(fields)| == Lengths(fields, k) + |Flat(fields[k..])|
    decreases k
  {
    if k == 0 {
      assert fields[0..] == fields;
    } else {
      FlatLength(fields, k - 1);
      assert fields[k - 1..][0] == fields[k - 1] && fields[k - 1..][1..] == fields[k..];
    }
  }

  lemma WholeLength(fields: seq<seq<byte>>)
    ensures |Flat(fields)| == Lengths(fields, |fields|)
  {
    FlatLength(fields, |fields|);
    assert fields[|fields|..] == [];
  }

  lemma NextLength(fields: seq<seq<byte>>, k: nat, n: nat, len: nat)
    requires k < |fields| && Lengths(fields, k) == n && |fields[k]| == len
    ensures Lengths(fields, k + 1) == n + len
  {
  }

  // ── one command ──────────────────────────────────────────────────────────

  /** The offsets of a segment command's twelve fields. */
  lemma SegOffsets(fs: seq<seq<byte>>)
    requires |fs| == 12 && |fs[0]| == |fs[1]| == 4 && |fs[2]| == 16 && |fs[3]| == |fs[4]| == |fs[5]| == |fs[6]| == 8
    requires |fs[7]| == |fs[8]| == |fs[9]| == |fs[10]| == 4
    ensures Lengths(fs, 0) == 0 && Lengths(fs, 1) == 4 && Lengths(fs, 2) == 8 && Lengths(fs, 3) == 24 && Lengths(fs, 4) == 32 && Lengths(fs, 5) == 40
    ensures Lengths(fs, 6) == 48 && Lengths(fs, 7) == 56 && Lengths(fs, 8) == 60 && Lengths(fs, 9) == 64 && Lengths(fs, 11) == 72
    ensures Lengths(fs, 12) == 72 + |fs[11]|
  {
    NextLength(fs, 0, 0, 4);
    NextLength(fs, 1, 4, 4);
    NextLength(fs, 2, 8, 16);
    NextLength(fs, 3, 24, 8);
    NextLength(fs, 4, 32, 8);
    NextLength(fs, 5, 40, 8);
    NextLength(fs, 6, 48, 8);
    NextLength(fs, 7, 56, 4);
    NextLength(fs, 8, 60, 4);
    NextLength(fs, 9, 64, 4);
    NextLength(fs, 10, 68, 4);
    NextLength(fs, 11, 72, |fs[11]|);
  }

  /** The offsets of fields of four bytes. */
  lemma {:induction false} WordOffsets(fs: seq<seq<byte>>, k: nat)
    requires k <= |fs| && forall i :: 0 <= i < k ==> |fs[i]| == 4
    ensures Lengths(fs, k) == 4 * k
  {
    if k > 0 { WordOffsets(fs, k - 1); }
  }

  /** The segment's own fields and the start of its sections. */
  lemma SegFields(d: seq<byte>, off: nat, c: Command)
    requires c.Seg? && Printable(c) && At(d, off, Flat(FieldsOf(c)))
    ensures off + 72 <= |d| && ReadLe32(d, off) == 0x19 && ReadLe32(d, off + 4) == 72 + 80 * |c.sections|
    ensures [SegmentAt(d, off)] == SegmentIn(c)
    ensures d[off + 8..off + 24] == c.segname && ReadLe32(d, off + 64) == |c.sections| && At(d, off + 72, PrintSections(c.sections))
  {
    var fs := FieldsOf(c);
    SegOffsets(fs);
    FieldAt(d, off, fs, 0, off);
    FieldAt(d, off, fs, 1, off + 4);
    FieldAt(d, off, fs, 2, off + 8);
    FieldAt(d, off, fs, 3, off + 24);
    FieldAt(d, off, fs, 4, off + 32);
    FieldAt(d, off, fs, 5, off + 40);
    FieldAt(d, off, fs, 6, off + 48);
    FieldAt(d, off, fs, 7, off + 56);
    FieldAt(d, off, fs, 8, off + 60);
    FieldAt(d, off, fs, 9, off + 64);
    FieldAt(d, off, fs, 11, off + 72);
    SegRead(d, off, c);
  }

  lemma SegRead(d: seq<byte>, off: nat, c: Command)
    requires c.Seg? && Printable(c) && off + 72 <= |d|
    requires At(d, off, Le32(0x19)) && At(d, off + 4, Le32(72 + 80 * |c.sections|)) && At(d, off + 8, c.segname)
    requires At(d, off + 24, Le64(c.vmaddr)) && At(d, off + 32, Le64(c.vmsize)) && At(d, off + 40, Le64(c.fileoff)) && At(d, off + 48, Le64(c.filesize))
    requires At(d, off + 56, Le32(c.initprot)) && At(d, off + 60, Le32(c.maxprot)) && At(d, off + 64, Le32(|c.sections|))
    ensures ReadLe32(d, off) == 0x19 && ReadLe32(d, off + 4) == 72 + 80 * |c.sections| && ReadLe32(d, off + 64) == |c.sections|
    ensures [SegmentAt(d, off)] == SegmentIn(c) && d[off + 8..off + 24] == c.segname
  {
    Back32(d, off, 0x19);
    Back32(d, off + 4, 72 + 80 * |c.sections|);
    Back64(d, off + 24, c.vmaddr);
    Back64(d, off + 32, c.vmsize);
    Back64(d, off + 40, c.fileoff);
    Back64(d, off + 48, c.filesize);
    Back32(d, off + 56, c.initprot);
    Back32(d, off + 60, c.maxprot);
    Back32(d, off + 64, |c.sections|);
  }

  lemma SymOffsets(fs: seq<seq<byte>>)
    requires |fs| == 6 && forall i :: 0 <= i < 6 ==> |fs[i]| == 4
    ensures Lengths(fs, 0) == 0 && Lengths(fs, 1) == 4 && Lengths(fs, 2) == 8 && Lengths(fs, 3) == 12 && Lengths(fs, 4) == 16 && Lengths(fs, 5) == 20
  {
    WordOffsets(fs, 1);
    WordOffsets(fs, 2);
    WordOffsets(fs, 3);
    WordOffsets(fs, 4);
    WordOffsets(fs, 5);
  }

  lemma SymFields(d: seq<byte>, off: nat, c: Command)
    requires c.Sym? && At(d, off, Flat(FieldsOf(c)))
    ensures off + 24 <= |d| && ReadLe32(d, off) == 0x02 && ReadLe32(d, off + 4) == 24
    ensures ReadLe32(d, off + 8) == c.symoff && ReadLe32(d, off + 12) == c.nsyms && ReadLe32(d, off + 16) == c.stroff && ReadLe32(d, off + 20) == c.strsize
  {
    var fs := FieldsOf(c);
    SymOffsets(fs);
    FieldAt(d, off, fs, 0, off);
    FieldAt(d, off, fs, 1, off + 4);
    FieldAt(d, off, fs, 2, off + 8);
    FieldAt(d, off, fs, 3, off + 12);
    FieldAt(d, off, fs, 4, off + 16);
    FieldAt(d, off, fs, 5, off + 20);
    Back32(d, off, 0x02);
    Back32(d, off + 4, 24);
    Back32(d, off + 8, c.symoff);
    Back32(d, off + 12, c.nsyms);
    Back32(d, off + 16, c.stroff);
    Back32(d, off + 20, c.strsize);
  }

  lemma {:induction false} WordsRead(d: seq<byte>, off: nat, ws: seq<u32>, i: nat)
    requires At(d, off, PrintWords(ws)) && i < |ws|
    ensures off + 4 * i + 4 <= |d| && ReadLe32(d, off + 4 * i) == ws[i]
    decreases i
  {
    AtSplit(d, off, Le32(ws[0]), PrintWords(ws[1..]));
    if i == 0 { Back32(d, off, ws[0]); } else { WordsRead(d, off + 4, ws[1..], i - 1); }
  }

  lemma DyldRead(d: seq<byte>, off: nat, c: Command)
    requires c.Dyld? && At(d, off, Flat(FieldsOf(c)))
    ensures off + 48 <= |d| && ReadLe32(d, off) == NumberOf(c) && ReadLe32(d, off + 4) == 48 && FieldsAt(d, off) == c.words
  {
    var fs := FieldsOf(c);
    WordOffsets(fs, 0);
    WordOffsets(fs, 1);
    WordOffsets(fs, 2);
    FieldAt(d, off, fs, 0, off);
    FieldAt(d, off, fs, 1, off + 4);
    FieldAt(d, off, fs, 2, off + 8);
    Back32(d, off, NumberOf(c));
    Back32(d, off + 4, 48);
    forall i | 0 <= i < 10 ensures FieldsAt(d, off)[i] == c.words[i] { WordsRead(d, off + 8, c.words, i); }
  }

  lemma OtherRead(d: seq<byte>, off: nat, c: Command)
    requires c.Other? && Printable(c) && At(d, off, Flat(FieldsOf(c)))
    ensures off + 8 + |c.payload| <= |d| && ReadLe32(d, off) == c.cmd && ReadLe32(d, off + 4) == 8 + |c.payload|
  {
    var fs := FieldsOf(c);
    WordOffsets(fs, 0);
    WordOffsets(fs, 1);
    WordOffsets(fs, 2);
    FieldAt(d, off, fs, 0, off);
    FieldAt(d, off, fs, 1, off + 4);
    FieldAt(d, off, fs, 2, off + 8);
    Back32(d, off, c.cmd);
    Back32(d, off + 4, 8 + |c.payload|);
  }

  /** A command's bytes are as many as its size says. */
  lemma PrintedLength(c: Command)
    requires Printable(c)
    ensures |PrintCommand(c)| == Length(c)
  {
    var fs := FieldsOf(c);
    WholeLength(fs);
    match c {
      case Seg(_, _, _, _, _, _, _, _, _) => SegOffsets(fs);
      case Sym(_, _, _, _) => WordOffsets(fs, 6);
      case _ => WordOffsets(fs, 2); NextLength(fs, 2, 8, |fs[2]|);
    }
  }

  lemma CommandFrom(d: seq<byte>, off: nat, number: u32, size: u32)
    requires 8 <= size && off + size <= |d| && ReadLe32(d, off) == number && ReadLe32(d, off + 4) == size
    ensures CommandAt(d, off) == Some(LoadCommand(number, size, off))
  {
  }

  /** One printed command is found with its number and size. */
  lemma CommandFound(d: seq<byte>, off: nat, c: Command)
    requires Printable(c) && At(d, off, PrintCommand(c))
    ensures CommandAt(d, off) == Some(LoadCommand(NumberOf(c), Length(c), off))
  {
    PrintedLength(c);
    match c {
      case Seg(_, _, _, _, _, _, _, _, _) => SegFields(d, off, c);
      case Sym(_, _, _, _) => SymFields(d, off, c);
      case Dyld(_, _) => DyldRead(d, off, c);
      case Other(_, _) => OtherRead(d, off, c);
    }
    CommandFrom(d, off, NumberOf(c), Length(c));
  }

  lemma SegAdds(d: seq<byte>, off: nat, c: Command, acc: Commands)
    requires c.Seg? && Printable(c) && At(d, off, PrintCommand(c)) && off + Length(c) <= |d|
    ensures AddCommand(d, LoadCommand(0x19, Length(c), off), acc) == Success(CollectOne(c, off, acc))
  {
    SegFields(d, off, c);
  }

  lemma SymAdds(d: seq<byte>, off: nat, c: Command, acc: Commands)
    requires c.Sym? && At(d, off, PrintCommand(c)) && off + Length(c) <= |d|
    ensures AddCommand(d, LoadCommand(0x02, Length(c), off), acc) == Success(CollectOne(c, off, acc))
  {
    SymFields(d, off, c);
    assert acc.segments + [] == acc.segments;
  }

  lemma DyldAdds(d: seq<byte>, off: nat, c: Command, acc: Commands)
    requires c.Dyld? && At(d, off, PrintCommand(c)) && off + Length(c) <= |d|
    ensures AddCommand(d, LoadCommand(NumberOf(c), Length(c), off), acc) == Success(CollectOne(c, off, acc))
  {
    DyldRead(d, off, c);
    assert acc.segments + [] == acc.segments;
  }

  lemma OtherAdds(d: seq<byte>, off: nat, c: Command, acc: Commands)
    requires c.Other? && Printable(c) && off + Length(c) <= |d|
    ensures AddCommand(d, LoadCommand(c.cmd, Length(c), off), acc) == Success(CollectOne(c, off, acc))
  {
    assert acc.segments + [] == acc.segments;
  }

  /** One printed command adds exactly what it says. */
  lemma CommandRead(d: seq<byte>, off: nat, c: Command, acc: Commands)
    requires Printable(c) && At(d, off, PrintCommand(c))
    ensures ReadAt(d, off, c, acc)
  {
    CommandFound(d, off, c);
    match c {
      case Seg(_, _, _, _, _, _, _, _, _) => SegAdds(d, off, c, acc);
      case Sym(_, _, _, _) => SymAdds(d, off, c, acc);
      case Dyld(_, _) => DyldAdds(d, off, c, acc);
      case Other(_, _) => OtherAdds(d, off, c, acc);
    }
  }

  lemma WalkNext(d: seq<byte>, off: nat, n: nat, acc: Commands, c: LoadCommand, more: Commands)
    requires n > 0 && CommandAt(d, off) == Some(c) && AddCommand(d, c, acc) == Success(more)
    ensures Walk(d, off, n, acc) == Walk(d, off + c.cmdsize, n - 1, more)
  {
  }

  /** Wherever `chunk` stands it is read as the command `c`. */
  ghost predicate ReadsAs(c: Command, chunk: seq<byte>) {
    && Printable(c) && |chunk| == Length(c)
    && forall d, at: nat, acc {:trigger ReadAt(d, at, c, acc)} :: At(d, at, chunk) ==> ReadAt(d, at, c, acc)
  }

  ghost predicate ReadAt(d: seq<byte>, at: nat, c: Command, acc: Commands)
    requires Printable(c)
  {
    CommandAt(d, at) == Some(LoadCommand(NumberOf(c), Length(c), at)) && AddCommand(d, LoadCommand(NumberOf(c), Length(c), at), acc) == Success(CollectOne(c, at, acc))
  }

  lemma PrintedReads(c: Command)
    requires Printable(c)
    ensures ReadsAs(c, PrintCommand(c))
  {
    PrintedLength(c);
    forall d, at: nat, acc | At(d, at, PrintCommand(c)) ensures ReadAt(d, at, c, acc) {
      CommandRead(d, at, c, acc);
    }
  }

  ghost predicate AllRead(cs: seq<Command>, chunks: seq<seq<byte>>)
    decreases |cs|
  {
    if cs == [] then chunks == [] else chunks != [] && ReadsAs(cs[0], chunks[0]) && AllRead(cs[1..], chunks[1..])
  }

  lemma {:induction false} PrintedAllRead(cs: seq<Command>)
    requires AllPrintable(cs)
    ensures AllRead(cs, Printed(cs))
    decreases |cs|
  {
    if cs != [] {
      PrintedReads(cs[0]);
      PrintedAllRead(cs[1..]);
      ReadMore(cs, PrintCommand(cs[0]), Printed(cs[1..]));
    }
  }

  lemma ReadMore(cs: seq<Command>, chunk: seq<byte>, others: seq<seq<byte>>)
    requires cs != [] && ReadsAs(cs[0], chunk) && AllRead(cs[1..], others)
    ensures AllRead(cs, [chunk] + others)
  {
    assert ([chunk] + others)[1..] == others;
  }

  lemma ChunkStep(d: seq<byte>, off: nat, n: nat, c: Command, chunk: seq<byte>, acc: Commands)
    requires ReadsAs(c, chunk) && At(d, off, chunk) && n > 0
    ensures Walk(d, off, n, acc) == Walk(d, off + Length(c), n - 1, CollectOne(c, off, acc))
  {
    assert ReadAt(d, off, c, acc);
    WalkNext(d, off, n, acc, LoadCommand(NumberOf(c), Length(c), off), CollectOne(c, off, acc));
  }

  lemma FirstChunk(cs: seq<Command>, chunks: seq<seq<byte>>)
    requires AllRead(cs, chunks) && cs != []
    ensures chunks != [] && ReadsAs(cs[0], chunks[0]) && AllRead(cs[1..], chunks[1..]) && |chunks[0]| == Length(cs[0])
  {
  }

  lemma CollectedNext(cs: seq<Command>, off: nat, acc: Commands)
    requires AllPrintable(cs) && cs != []
    ensures Printable(cs[0]) && AllPrintable(cs[1..])
    ensures Collected(cs, off, acc) == Collected(cs[1..], off + Length(cs[0]), CollectOne(cs[0], off, acc))
  {
  }

  /** Whatever runs one command at a time, and collects it, collects them all. */
  lemma {:induction false} RunChunks(run: (nat, nat, Commands) -> Result<Commands, ParseError>, off: nat, cs: seq<Command>, acc: Commands)
    requires AllPrintable(cs) && RunsEach(run, off, cs)
    ensures run(off, |cs|, acc) == Success(Collected(cs, off, acc))
    decreases |cs|
  {
    if cs != [] {
      CollectedNext(cs, off, acc);
      RunChunks(run, off + Length(cs[0]), cs[1..], CollectOne(cs[0], off, acc));
    }
  }

  /** At every command's place `run` collects it and goes on behind it. */
  ghost predicate RunsEach(run: (nat, nat, Commands) -> Result<Commands, ParseError>, off: nat, cs: seq<Command>)
    decreases |cs|
  {
    if cs == [] then forall acc :: run(off, 0, acc) == Success(acc)
    else
      && Printable(cs[0])
      && (forall acc :: run(off, |cs|, acc) == run(off + Length(cs[0]), |cs| - 1, CollectOne(cs[0], off, acc)))
      && RunsEach(run, off + Length(cs[0]), cs[1..])
  }

  function Walker(d: seq<byte>): (nat, nat, Commands) -> Result<Commands, ParseError> {
    (off: nat, n: nat, acc: Commands) => Walk(d, off, n, acc)
  }

  lemma WalkerStep(d: seq<byte>, off: nat, n: nat, c: Command, chunk: seq<byte>)
    requires ReadsAs(c, chunk) && At(d, off, chunk) && n > 0
    ensures Printable(c) && forall acc :: Walker(d)(off, n, acc) == Walker(d)(off + Length(c), n - 1, CollectOne(c, off, acc))
  {
    forall acc ensures Walker(d)(off, n, acc) == Walker(d)(off + Length(c), n - 1, CollectOne(c, off, acc)) {
      ChunkStep(d, off, n, c, chunk, acc);
    }
  }

  lemma RunsMore(run: (nat, nat, Commands) -> Result<Commands, ParseError>, off: nat, cs: seq<Command>)
    requires cs != [] && Printable(cs[0]) && RunsEach(run, off + Length(cs[0]), cs[1..])
    requires forall acc :: run(off, |cs|, acc) == run(off + Length(cs[0]), |cs| - 1, CollectOne(cs[0], off, acc))
    ensures RunsEach(run, off, cs)
  {
  }

  lemma WalkerEnds(d: seq<byte>, off: nat)
    ensures RunsEach(Walker(d), off, [])
  {
  }

  lemma {:induction false} WalkerRuns(d: seq<byte>, run: (nat, nat, Commands) -> Result<Commands, ParseError>, off: nat, cs: seq<Command>, chunks: seq<seq<byte>>)
    requires run == Walker(d) && AllRead(cs, chunks) && At(d, off, Flat(chunks))
    ensures RunsEach(run, off, cs)
    decreases |cs|
  {
    if cs == [] {
      WalkerEnds(d, off);
    } else {
      FirstChunk(cs, chunks);
      PeelFirst(d, off, chunks);
      WalkerRuns(d, run, off + Length(cs[0]), cs[1..], chunks[1..]);
      WalkerMore(d, run, off, cs, chunks[0]);
    }
  }

  lemma WalkerMore(d: seq<byte>, run: (nat, nat, Commands) -> Result<Commands, ParseError>, off: nat, cs: seq<Command>, chunk: seq<byte>)
    requires run == Walker(d) && cs != [] && ReadsAs(cs[0], chunk) && At(d, off, chunk) && RunsEach(run, off + Length(cs[0]), cs[1..])
    ensures RunsEach(run, off, cs)
  {
    WalkerStep(d, off, |cs|, cs[0], chunk);
    RunsMore(run, off, cs);
  }

  /** The walk over printed commands collects exactly what was printed. */
  lemma WalkPrinted(d: seq<byte>, off: nat, cs: seq<Command>, acc: Commands)
    requires AllPrintable(cs) && At(d, off, PrintCommands(cs))
    ensures Walk(d, off, |cs|, acc) == Success(Collected(cs, off, acc))
  {
    PrintedAllRead(cs);
    WalkerRuns(d, Walker(d), off, cs, Printed(cs));
    RunChunks(Walker(d), off, cs, acc);
  }

  /** Its parts: all segments in order, all commands with their places, and the last of each table. */
  lemma {:induction false} CollectedParts(cs: seq<Command>, at: nat, acc: Commands)
    requires AllPrintable(cs)
    ensures Collected(cs, at, acc).segments == acc.segments + SegmentsOf(cs)
    ensures Collected(cs, at, acc).list == acc.list + ListOf(cs, at)
    ensures Collected(cs, at, acc).symtab == SymtabIn(cs, acc.symtab) && Collected(cs, at, acc).dyld == DyldIn(cs, acc.dyld)
    decreases |cs|
  {
    if cs == [] {
      assert acc.segments + [] == acc.segments && acc.list + [] == acc.list;
    } else {
      var one := CollectOne(cs[0], at, acc);
      CollectedParts(cs[1..], at + Length(cs[0]), one);
      Associates(acc.segments, SegmentIn(cs[0]), SegmentsOf(cs[1..]));
      Associates(acc.list, [LoadCommand(NumberOf(cs[0]), Length(cs[0]), at)], ListOf(cs[1..], at + Length(cs[0])));
    }
  }

  lemma Associates<T>(a: seq<T>, b: seq<T>, c: seq<T>)
    ensures a + b + c == a + (b + c)
  {
  }

  // ── the __text section ───────────────────────────────────────────────────

  lemma SectionOffsets(fs: seq<seq<byte>>)
    requires |fs| == 6 && |fs[0]| == |fs[1]| == 16 && |fs[2]| == |fs[3]| == 8 && |fs[4]| == 4 && |fs[5]| == 28
    ensures Lengths(fs, 0) == 0 && Lengths(fs, 3) == 40 && Lengths(fs, 4) == 48 && Lengths(fs, 6) == 80
  {
    NextLength(fs, 0, 0, 16);
    NextLength(fs, 1, 16, 16);
    NextLength(fs, 2, 32, 8);
    NextLength(fs, 3, 40, 8);
    NextLength(fs, 4, 48, 4);
    NextLength(fs, 5, 52, 28);
  }

  lemma FlatTail(f: seq<byte>, others: seq<seq<byte>>)
    ensures Flat([f] + others) == f + Flat(others)
  {
    assert ([f] + others)[1..] == others;
  }

  /** One printed section header: its name, and where it says `__text` is. */
  lemma SectionRead(d: seq<byte>, so: nat, s: Section, found: Option<Text>)
    requires At(d, so, PrintSection(s))
    ensures HeaderEnd(d, so) <= |d|
    ensures NextText(d, so, found) == TextIn([s], found)
  {
    var fs := SectionFields(s);
    SectionOffsets(fs);
    FieldAt(d, so, fs, 0, so);
    FieldAt(d, so, fs, 3, so + 40);
    FieldAt(d, so, fs, 4, so + 48);
    Back64(d, so + 40, s.size);
    Back32(d, so + 48, s.offset);
    assert d[so..so + 6] == d[so..so + 16][..6];
    assert [s][1..] == [];
  }

  lemma SectionsFirst(d: seq<byte>, at: nat, ss: seq<Section>)
    requires ss != [] && At(d, at, PrintSections(ss))
    ensures At(d, at, PrintSection(ss[0])) && At(d, at + 80, PrintSections(ss[1..]))
  {
    AtSplit(d, at, PrintSection(ss[0]), PrintSections(ss[1..]));
  }

  /** The scan of printed section headers finds the last one named `__text`. */
  lemma {:induction false} SectionsPrinted(d: seq<byte>, off: nat, i: nat, n: nat, ss: seq<Section>, found: Option<Text>)
    requires n == i + |ss| && At(d, SectionAt(off, i), PrintSections(ss))
    ensures Sections(d, off, i, n, found) == Success(TextIn(ss, found))
    decreases |ss|
  {
    if ss != [] {
      SectionsFirst(d, SectionAt(off, i), ss);
      SectionRead(d, SectionAt(off, i), ss[0], found);
      SectionsPrinted(d, off, i + 1, n, ss[1..], NextText(d, SectionAt(off, i), found));
    }
  }

  /** Every segment command of the list stands in `d` as printed. */
  ghost predicate Stand(d: seq<byte>, cs: seq<Command>, at: nat)
    requires AllPrintable(cs)
    decreases |cs|
  {
    cs == [] || ((cs[0].Seg? ==> At(d, at, PrintCommand(cs[0]))) && Stand(d, cs[1..], at + Length(cs[0])))
  }

  lemma {:induction false} PrintedStand(d: seq<byte>, at: nat, cs: seq<Command>)
    requires AllPrintable(cs) && At(d, at, PrintCommands(cs))
    ensures Stand(d, cs, at)
    decreases |cs|
  {
    if cs != [] {
      FlatTail(PrintCommand(cs[0]), Printed(cs[1..]));
      PrintedLength(cs[0]);
      AtSplit(d, at, PrintCommand(cs[0]), PrintCommands(cs[1..]));
      PrintedStand(d, at + Length(cs[0]), cs[1..]);
    }
  }

  lemma SegmentText(d: seq<byte>, at: nat, c: Command, found: Option<Text>)
    requires c.Seg? && Printable(c) && At(d, at, PrintCommand(c))
    ensures at + 72 <= |d|
    ensures L.TEXT <= d[at + 8..at + 24] <==> c.segname[..6] == [0x5F, 0x5F, 0x54, 0x45, 0x58, 0x54]
    ensures Sections(d, at, 0, ReadLe32(d, at + 64), found) == Success(TextIn(c.sections, found))
  {
    SegFields(d, at, c);
    SectionsPrinted(d, at, 0, |c.sections|, c.sections, found);
  }

  /** The text search over printed commands. */
  lemma {:induction false} TextPrinted(d: seq<byte>, at: nat, cs: seq<Command>, found: Option<Text>)
    requires AllPrintable(cs) && Stand(d, cs, at)
    ensures Placed(d, ListOf(cs, at)) && TextOf(d, ListOf(cs, at), found) == Success(TextOfAll(cs, found))
    decreases |cs|
  {
    if cs != [] {
      var c, next := cs[0], at + Length(cs[0]);
      var more := if c.Seg? && c.segname[..6] == [0x5F, 0x5F, 0x54, 0x45, 0x58, 0x54] then TextIn(c.sections, found) else found;
      if c.Seg? { SegmentText(d, at, c, found); }
      TextPrinted(d, next, cs[1..], more);
      ListText(d, c, at, ListOf(cs[1..], next), found, more);
    }
  }

  lemma ListText(d: seq<byte>, c: Command, at: nat, others: seq<LoadCommand>, found: Option<Text>, more: Option<Text>)
    requires Printable(c) && Placed(d, others) && (c.Seg? ==> at + 72 <= |d|)
    requires c.Seg? ==> (L.TEXT <= d[at + 8..at + 24] <==> c.segname[..6] == [0x5F, 0x5F, 0x54, 0x45, 0x58, 0x54])
    requires c.Seg? && c.segname[..6] == [0x5F, 0x5F, 0x54, 0x45, 0x58, 0x54] ==> Sections(d, at, 0, ReadLe32(d, at + 64), found) == Success(more)
    requires !(c.Seg? && c.segname[..6] == [0x5F, 0x5F, 0x54, 0x45, 0x58, 0x54]) ==> more == found
    ensures var list := [LoadCommand(NumberOf(c), Length(c), at)] + others; Placed(d, list) && TextOf(d, list, found) == TextOf(d, others, more)
  {
    var list := [LoadCommand(NumberOf(c), Length(c), at)] + others;
    assert list[0] == LoadCommand(NumberOf(c), Length(c), at) && list[1..] == others;
  }

  // ── symbols ──────────────────────────────────────────────────────────────

  datatype Nlist = Nlist(strx: u32, kind: byte, sect: byte, desc: u16, value: u64)

  function NlistFieldsOf(s: Nlist): seq<seq<byte>> { [Le32(s.strx), [s.kind], [s.sect], LittleEndian(s.desc, 2), Le64(s.value)] }

  lemma NlistOffsets(fs: seq<seq<byte>>)
    requires |fs| == 5 && |fs[0]| == 4 && |fs[1]| == |fs[2]| == 1 && |fs[3]| == 2 && |fs[4]| == 8
    ensures Lengths(fs, 0) == 0 && Lengths(fs, 1) == 4 && Lengths(fs, 4) == 8 && Lengths(fs, 5) == 16
  {
    NextLength(fs, 0, 0, 4);
    NextLength(fs, 1, 4, 1);
    NextLength(fs, 2, 5, 1);
    NextLength(fs, 3, 6, 2);
    NextLength(fs, 4, 8, 8);
  }

  function PrintNlist(s: Nlist): (bs: seq<byte>)
    ensures |bs| == 16
  {
    NlistOffsets(NlistFieldsOf(s));
    WholeLength(NlistFieldsOf(s));
    Flat(NlistFieldsOf(s))
  }

  function PrintNlists(ss: seq<Nlist>): (bs: seq<byte>)
    ensures |bs| == 16 * |ss|
  {
    if ss == [] then [] else PrintNlist(ss[0]) + PrintNlists(ss[1..])
  }

  /** `name` and its NUL stand in the string table where the entry says. */
  predicate NameStands(table: seq<byte>, s: Nlist, name: seq<byte>) {
    At(table, s.strx, name + [0]) && 0 !in name
  }

  /** A symbol that is defined in a section, placed and named. */
  predicate Defined(s: Nlist, name: seq<byte>) { s.kind % 0x10 >= 0x0E && s.value != 0 && name != [] }

  function SymbolsMeant(ss: seq<Nlist>, names: seq<seq<byte>>): seq<Symbol>
    requires |names| == |ss|
  {
    if ss == [] then []
    else
      var n := |ss| - 1;
      SymbolsMeant(ss[..n], names[..n]) + Listed(Meant(ss[n], names[n]))
  }

  lemma NameRead(table: seq<byte>, s: Nlist, name: seq<byte>)
    requires NameStands(table, s, name)
    ensures NameAt(table, s.strx) == Utf8.Lossy(name)
  {
    var t := table[s.strx..];
    AtSplit(table, s.strx, name, [0]);
    assert t == name + [0] + table[s.strx + |name| + 1..] by {
      assert table[s.strx..s.strx + |name|] == name && table[s.strx + |name|..s.strx + |name| + 1] == [0];
    }
    P.NulAfter(name, table[s.strx + |name| + 1..]);
    assert t[..|name|] == name;
  }

  lemma LossyEmpty(name: seq<byte>)
    ensures Utf8.Lossy(name) == [] <==> name == []
  {
    Utf8.LossyIsText(name);
  }

  lemma NlistFields(entries: seq<byte>, e: nat, s: Nlist)
    requires At(entries, e, PrintNlist(s))
    ensures e + 16 <= |entries| && ReadLe32(entries, e) == s.strx && entries[e + 4] == s.kind && ReadLe64(entries, e + 8) == s.value
  {
    var fs := NlistFieldsOf(s);
    NlistOffsets(fs);
    FieldAt(entries, e, fs, 0, e);
    FieldAt(entries, e, fs, 1, e + 4);
    FieldAt(entries, e, fs, 4, e + 8);
    Back32(entries, e, s.strx);
    Back64(entries, e + 8, s.value);
    assert entries[e + 4] == entries[e + 4..e + 5][0];
  }

  /** One printed entry is read as its symbol, or as none. */
  lemma SymbolRead(entries: seq<byte>, table: seq<byte>, i: nat, e: nat, s: Nlist, name: seq<byte>)
    requires e == i * 16 && At(entries, e, PrintNlist(s)) && NameStands(table, s, name)
    ensures i * 16 + 16 <= |entries|
    ensures SymbolAt(entries, table, i) == Meant(s, name)
  {
    NlistFields(entries, e, s);
    NameRead(table, s, name);
    LossyEmpty(name);
    KindBits(s.kind);
    SymbolFrom(entries, table, i, e, s, Utf8.Lossy(name));
  }

  lemma KindBits(k: byte)
    ensures k / 2 % 8 == 7 <==> k % 0x10 >= 0x0E
  {
  }

  lemma SymbolFrom(entries: seq<byte>, table: seq<byte>, i: nat, e: nat, s: Nlist, name: seq<byte>)
    requires e == i * 16 && e + 16 <= |entries| && NameAt(table, s.strx) == name
    requires ReadLe32(entries, e) == s.strx && entries[e + 4] == s.kind && ReadLe64(entries, e + 8) == s.value
    ensures SymbolAt(entries, table, i) == if s.kind / 2 % 8 == 7 && s.value != 0 && name != [] then Some(Symbol(name, s.value)) else None
  {
  }

  lemma {:induction false} NlistAt(entries: seq<byte>, off: nat, ss: seq<Nlist>, i: nat, at: nat)
    requires At(entries, off, PrintNlists(ss)) && i < |ss| && at == off + 16 * i
    ensures At(entries, at, PrintNlist(ss[i]))
    decreases i
  {
    AtSplit(entries, off, PrintNlist(ss[0]), PrintNlists(ss[1..]));
    if i > 0 {
      assert ss[1..][i - 1] == ss[i];
      NlistAt(entries, off + 16, ss[1..], i - 1, at);
    }
  }

  lemma KeptGrows(front: seq<Option<Symbol>>, last: Option<Symbol>)
    ensures Kept(front + [last]) == Kept(front) + Listed(last)
  {
    assert (front + [last])[..|front|] == front;
  }

  ghost predicate NamesStand(table: seq<byte>, ss: seq<Nlist>, names: seq<seq<byte>>) {
    |names| == |ss| && forall i :: 0 <= i < |ss| ==> NameStands(table, ss[i], names[i])
  }

  function Meant(s: Nlist, name: seq<byte>): Option<Symbol> {
    if Defined(s, name) then Some(Symbol(name := Utf8.Lossy(name), addr := s.value)) else None
  }

  function Listed(s: Option<Symbol>): seq<Symbol> { match s case None => [] case Some(one) => [one] }

  ghost predicate EntryStands(entries: seq<byte>, ss: seq<Nlist>, k: nat)
    requires k < |ss|
  {
    At(entries, k * 16, PrintNlist(ss[k]))
  }

  ghost predicate EntriesStand(entries: seq<byte>, ss: seq<Nlist>) { forall k: nat :: k < |ss| ==> EntryStands(entries, ss, k) }

  lemma PrintedEntriesStand(entries: seq<byte>, off: nat, ss: seq<Nlist>)
    requires off == 0 && At(entries, off, PrintNlists(ss))
    ensures EntriesStand(entries, ss)
  {
    forall k: nat | k < |ss| ensures EntryStands(entries, ss, k) {
      var at := off + 16 * k;
      NlistAt(entries, off, ss, k, at);
      EntryFrom(entries, ss, k, at);
    }
  }

  lemma EntryFrom(entries: seq<byte>, ss: seq<Nlist>, k: nat, at: nat)
    requires k < |ss| && at == k * 16 && At(entries, at, PrintNlist(ss[k]))
    ensures EntryStands(entries, ss, k)
  {
  }

  /** The `k`th printed entry. */
  lemma SymbolK(entries: seq<byte>, table: seq<byte>, ss: seq<Nlist>, names: seq<seq<byte>>, k: nat, one: Option<Symbol>)
    requires EntriesStand(entries, ss) && NamesStand(table, ss, names) && k < |ss| && one == Meant(ss[k], names[k])
    ensures k * 16 + 16 <= |entries|
    ensures Symbols(entries, table, k + 1) == Symbols(entries, table, k) + Listed(one)
  {
    assert EntryStands(entries, ss, k) && NameStands(table, ss[k], names[k]);
    SymbolGoesOn(entries, table, k, k * 16, ss[k], names[k], one);
  }

  lemma SymbolGoesOn(entries: seq<byte>, table: seq<byte>, k: nat, e: nat, s: Nlist, name: seq<byte>, one: Option<Symbol>)
    requires e == k * 16 && At(entries, e, PrintNlist(s)) && NameStands(table, s, name) && one == Meant(s, name)
    ensures k * 16 + 16 <= |entries|
    ensures Symbols(entries, table, k + 1) == Symbols(entries, table, k) + Listed(one)
  {
    SymbolRead(entries, table, k, e, s, name);
    SymbolsNext(entries, table, k, one);
  }

  /** The first `n` printed symbols. */
  lemma {:induction false} SymbolsPrinted(entries: seq<byte>, table: seq<byte>, ss: seq<Nlist>, names: seq<seq<byte>>, n: nat)
    requires EntriesStand(entries, ss) && NamesStand(table, ss, names) && n <= |ss|
    ensures n * 16 <= |entries| && Symbols(entries, table, n) == SymbolsMeant(ss[..n], names[..n])
    decreases n
  {
    if n > 0 {
      SymbolsPrinted(entries, table, ss, names, n - 1);
      SymbolK(entries, table, ss, names, n - 1, Meant(ss[n - 1], names[n - 1]));
      MeantNext(ss, names, n - 1);
    }
  }

  lemma SymbolsNext(entries: seq<byte>, table: seq<byte>, k: nat, one: Option<Symbol>)
    requires k * 16 + 16 <= |entries| && SymbolAt(entries, table, k) == one
    ensures Symbols(entries, table, k + 1) == Symbols(entries, table, k) + Listed(one)
  {
    var front := seq(k, i requires 0 <= i < k => SymbolAt(entries, table, i));
    var whole := seq(k + 1, i requires 0 <= i < k + 1 => SymbolAt(entries, table, i));
    SeqGrows(whole, front, one);
    KeptGrows(front, one);
  }

  lemma SeqGrows<T>(whole: seq<T>, front: seq<T>, last: T)
    requires |whole| == |front| + 1 && whole[|front|] == last && forall i :: 0 <= i < |front| ==> whole[i] == front[i]
    ensures whole == front + [last]
  {
  }

  lemma MeantNext(ss: seq<Nlist>, names: seq<seq<byte>>, k: nat)
    requires k < |ss| == |names|
    ensures SymbolsMeant(ss[..k + 1], names[..k + 1])
         == SymbolsMeant(ss[..k], names[..k]) + Listed(Meant(ss[k], names[k]))
  {
    assert ss[..k + 1][..k] == ss[..k] && names[..k + 1][..k] == names[..k];
  }

  // ── the four streams ─────────────────────────────────────────────────────

  function StreamBytes(es: seq<D.Entry>, kind: D.StreamKind, isLazy: bool): seq<byte>
    requires P.AllEncodable(es, kind)
  {
    P.AllBytes(P.EncodeRecords(es, kind, isLazy), kind)
  }

  /** The stream's bytes stand where the two words say; an empty stream stands nowhere. */
  predicate StreamStands(file: seq<byte>, off: u32, size: u32, bytes: seq<byte>) {
    |bytes| == size && (bytes != [] ==> At(file, off, bytes))
  }

  /** Where an entry's slot is, by its segment's name. */
  function RebasesMeant(es: seq<D.Entry>, segments: seq<Segment64>): seq<Rebase>
    requires forall e :: e in es ==> e.segment < |segments|
  {
    seq(|es|, i requires 0 <= i < |es| => Rebase(segment := segments[es[i].segment].range.name, segOff := es[i].offset))
  }

  function BindsMeant(es: seq<D.Entry>, segments: seq<Segment64>): seq<Bind>
    requires forall e :: e in es ==> e.segment < |segments| && e.bind.Some?
  {
    seq(|es|, i requires 0 <= i < |es| => Bind(segment := segments[es[i].segment].range.name, segOff := es[i].offset, target := es[i].bind.value))
  }

  /** Entries that a stream of this kind can hold, for segments that exist. */
  predicate GoodEntries(es: seq<D.Entry>, kind: D.StreamKind, segments: seq<Segment64>) {
    P.AllEncodable(es, kind) && P.AllNulFree(es) && forall e :: e in es ==> e.segment < |segments|
  }

  function Added(acc: Fixups, es: seq<D.Entry>, kind: D.StreamKind, segments: seq<Segment64>): Fixups
    requires GoodEntries(es, kind, segments)
  {
    if kind.Rebase? then acc.(rebases := acc.rebases + RebasesMeant(es, segments)) else acc.(binds := acc.binds + BindsMeant(es, segments))
  }

  lemma {:induction false} AttachAll(es: seq<D.Entry>, kind: D.StreamKind, segments: seq<Segment64>, acc: Fixups)
    requires GoodEntries(es, kind, segments)
    ensures Attach(es, segments, acc) == Success(Added(acc, es, kind, segments))
    decreases |es|
  {
    if es == [] {
      AddedNone(acc, es, kind, segments);
    } else {
      var e, rest := es[0], es[1..];
      assert e in es && forall x :: x in rest ==> x in es;
      assert P.Encodable(e, kind);
      var one := Added(acc, [e], kind, segments);
      AttachAll(rest, kind, segments, one);
      AddedFirst(acc, es, kind, segments);
    }
  }

  lemma AddedNone(acc: Fixups, es: seq<D.Entry>, kind: D.StreamKind, segments: seq<Segment64>)
    requires GoodEntries(es, kind, segments) && es == []
    ensures Added(acc, es, kind, segments) == acc
  {
    if kind.Rebase? {
      assert RebasesMeant(es, segments) == [] && acc.rebases + [] == acc.rebases;
    } else {
      assert BindsMeant(es, segments) == [] && acc.binds + [] == acc.binds;
    }
  }

  lemma AddedFirst(acc: Fixups, es: seq<D.Entry>, kind: D.StreamKind, segments: seq<Segment64>)
    requires GoodEntries(es, kind, segments) && es != []
    ensures GoodEntries([es[0]], kind, segments) && GoodEntries(es[1..], kind, segments)
    ensures Added(acc, es, kind, segments) == Added(Added(acc, [es[0]], kind, segments), es[1..], kind, segments)
    ensures Added(acc, [es[0]], kind, segments) == match es[0].bind
            case None => acc.(rebases := acc.rebases + [Rebase(segments[es[0].segment].range.name, es[0].offset)])
            case Some(target) => acc.(binds := acc.binds + [Bind(segments[es[0].segment].range.name, es[0].offset, target)])
  {
    var e, rest := es[0], es[1..];
    assert e in es && forall x :: x in rest ==> x in es;
    assert P.Encodable(e, kind) && P.NulFree(e);
    if kind.Rebase? {
      assert acc.rebases + RebasesMeant(es, segments) == acc.rebases + RebasesMeant([e], segments) + RebasesMeant(rest, segments);
      assert RebasesMeant([e], segments) == [Rebase(segments[e.segment].range.name, e.offset)];
    } else {
      assert acc.binds + BindsMeant(es, segments) == acc.binds + BindsMeant([e], segments) + BindsMeant(rest, segments);
      assert BindsMeant([e], segments) == [Bind(segments[e.segment].range.name, e.offset, e.bind.value)];
    }
  }

  /** A printed stream decodes to its entries, whatever symbol without a NUL was left before. */
  lemma StreamDecodes(es: seq<D.Entry>, symbol: seq<byte>, kind: D.StreamKind, isLazy: bool)
    requires P.AllEncodable(es, kind) && P.AllNulFree(es) && 0 !in symbol
    ensures var o := D.Decode(StreamBytes(es, kind, isLazy), symbol, kind, isLazy); o.result == Success(es) && 0 !in o.symbol
  {
    P.RecordsRoundTrip(es, symbol, kind, isLazy);
    P.RunClean(StreamBytes(es, kind, isLazy), D.State(D.RESET, symbol), kind, isLazy);
  }

  lemma NonemptyStream(es: seq<D.Entry>, kind: D.StreamKind, isLazy: bool)
    requires P.AllEncodable(es, kind) && es != []
    ensures StreamBytes(es, kind, isLazy) != []
  {
    assert es[0] in es;
    assert P.EncodeRecords(es, kind, isLazy) != [];
  }

  function Streamer(w: DyldFields, file: seq<byte>, segments: seq<Segment64>): (nat, seq<byte>, Fixups) -> Outcome<Fixups> {
    (k: nat, symbol: seq<byte>, acc: Fixups) => if k <= 4 then Streams(w, k, Whole(file), segments, symbol, acc) else Outcome(symbol, Success(acc))
  }

  /** One stream adds its entries; a size of zero adds none. */
  lemma StreamStep(w: DyldFields, k: nat, file: seq<byte>, segments: seq<Segment64>, symbol: seq<byte>, acc: Fixups, es: seq<D.Entry>, kind: D.StreamKind, isLazy: bool)
    returns (left: seq<byte>)
    requires k < 4 && kind == (if k == 0 then D.StreamKind.Rebase else D.StreamKind.Bind) && (isLazy <==> k == 3)
    requires GoodEntries(es, kind, segments) && 0 !in symbol && StreamStands(file, w[2 * k], w[2 * k + 1], StreamBytes(es, kind, isLazy))
    ensures 0 !in left
    ensures Streamer(w, file, segments)(k, symbol, acc) == Streamer(w, file, segments)(k + 1, left, Added(acc, es, kind, segments))
  {
    if w[2 * k + 1] == 0 {
      left := symbol;
      StreamEmpty(w, k, file, segments, symbol, acc, es, kind, isLazy);
    } else {
      left := StreamFull(w, k, file, segments, symbol, acc, es, kind, isLazy, w[2 * k], w[2 * k + 1], StreamBytes(es, kind, isLazy));
    }
  }

  lemma StreamEmpty(w: DyldFields, k: nat, file: seq<byte>, segments: seq<Segment64>, symbol: seq<byte>, acc: Fixups, es: seq<D.Entry>, kind: D.StreamKind, isLazy: bool)
    requires k < 4 && w[2 * k + 1] == 0 && GoodEntries(es, kind, segments) && |StreamBytes(es, kind, isLazy)| == 0
    ensures Streams(w, k, Whole(file), segments, symbol, acc) == Streams(w, k + 1, Whole(file), segments, symbol, Added(acc, es, kind, segments))
  {
    if es != [] { NonemptyStream(es, kind, isLazy); }
    AddedNone(acc, es, kind, segments);
    StreamSkips(w, k, Whole(file), segments, symbol, acc);
  }

  lemma StreamFull(w: DyldFields, k: nat, file: seq<byte>, segments: seq<Segment64>, symbol: seq<byte>, acc: Fixups, es: seq<D.Entry>, kind: D.StreamKind, isLazy: bool,
                   off: u32, size: u32, bytes: seq<byte>)
    returns (left: seq<byte>)
    requires k < 4 && kind == (if k == 0 then D.StreamKind.Rebase else D.StreamKind.Bind) && (isLazy <==> k == 3)
    requires GoodEntries(es, kind, segments) && 0 !in symbol && bytes == StreamBytes(es, kind, isLazy)
    requires off == w[2 * k] && size == w[2 * k + 1] && size > 0 && StreamStands(file, off, size, bytes)
    ensures 0 !in left
    ensures Streams(w, k, Whole(file), segments, symbol, acc) == Streams(w, k + 1, Whole(file), segments, left, Added(acc, es, kind, segments))
  {
    StreamDecodes(es, symbol, kind, isLazy);
    AttachAll(es, kind, segments, acc);
    WindowOf(file, off, size, bytes);
    left := D.Decode(bytes, symbol, kind, isLazy).symbol;
    StreamReads(w, k, Whole(file), segments, symbol, acc, bytes, kind, isLazy, es, left, Added(acc, es, kind, segments));
  }

  lemma WindowOf(file: seq<byte>, off: u32, size: u32, bytes: seq<byte>)
    requires StreamStands(file, off, size, bytes) && size > 0
    ensures Whole(file).Window(off, size) == Some(bytes)
  {
  }

  lemma StreamSkips(w: DyldFields, k: nat, src: Source, segments: seq<Segment64>, symbol: seq<byte>, acc: Fixups)
    requires k < 4 && w[2 * k + 1] == 0
    ensures Streams(w, k, src, segments, symbol, acc) == Streams(w, k + 1, src, segments, symbol, acc)
  {
  }

  lemma StreamReads(w: DyldFields, k: nat, src: Source, segments: seq<Segment64>, symbol: seq<byte>, acc: Fixups, bytes: seq<byte>,
                    kind: D.StreamKind, isLazy: bool, es: seq<D.Entry>, left: seq<byte>, more: Fixups)
    requires k < 4 && w[2 * k + 1] > 0 && kind == (if k == 0 then D.StreamKind.Rebase else D.StreamKind.Bind) && (isLazy <==> k == 3)
    requires src.Window(w[2 * k], w[2 * k + 1]) == Some(bytes) && D.Decode(bytes, symbol, kind, isLazy) == D.Outcome(left, Success(es))
    requires Attach(es, segments, acc) == Success(more)
    ensures Streams(w, k, src, segments, symbol, acc) == Streams(w, k + 1, src, segments, left, more)
  {
  }

  /** The four tables, each read at its own two words, in order, the fourth as the lazy one. */
  lemma StreamsPrinted(w: DyldFields, file: seq<byte>, segments: seq<Segment64>, symbol: seq<byte>,
                       rebases: seq<D.Entry>, binds: seq<D.Entry>, weak: seq<D.Entry>, later: seq<D.Entry>)
    requires GoodEntries(rebases, D.Rebase, segments) && GoodEntries(binds, D.Bind, segments) && GoodEntries(weak, D.Bind, segments) && GoodEntries(later, D.Bind, segments)
    requires 0 !in symbol
    requires StreamStands(file, w[0], w[1], StreamBytes(rebases, D.Rebase, false)) && StreamStands(file, w[2], w[3], StreamBytes(binds, D.Bind, false))
    requires StreamStands(file, w[4], w[5], StreamBytes(weak, D.Bind, false)) && StreamStands(file, w[6], w[7], StreamBytes(later, D.Bind, true))
    ensures FixupsOf(Some(w), Whole(file), segments, symbol).result
         == Success(Fixups(RebasesMeant(rebases, segments), BindsMeant(binds, segments) + BindsMeant(weak, segments) + BindsMeant(later, segments)))
  {
    var none := Fixups([], []);
    var one := Added(none, rebases, D.Rebase, segments);
    var two := Added(one, binds, D.Bind, segments);
    var three := Added(two, weak, D.Bind, segments);
    var s1 := StreamStep(w, 0, file, segments, symbol, none, rebases, D.Rebase, false);
    var s2 := StreamStep(w, 1, file, segments, s1, one, binds, D.Bind, false);
    var s3 := StreamStep(w, 2, file, segments, s2, two, weak, D.Bind, false);
    var s4 := StreamStep(w, 3, file, segments, s3, three, later, D.Bind, true);
    AllAdded(segments, rebases, binds, weak, later);
    StreamEnd(w, file, segments, s4, Added(three, later, D.Bind, segments));
  }

  lemma StreamEnd(w: DyldFields, file: seq<byte>, segments: seq<Segment64>, symbol: seq<byte>, acc: Fixups)
    ensures Streamer(w, file, segments)(4, symbol, acc) == Outcome(symbol, Success(acc))
  {
  }

  lemma AllAdded(segments: seq<Segment64>, rebases: seq<D.Entry>, binds: seq<D.Entry>, weak: seq<D.Entry>, later: seq<D.Entry>)
    requires GoodEntries(rebases, D.Rebase, segments) && GoodEntries(binds, D.Bind, segments) && GoodEntries(weak, D.Bind, segments) && GoodEntries(later, D.Bind, segments)
    ensures Added(Added(Added(Added(Fixups([], []), rebases, D.Rebase, segments), binds, D.Bind, segments), weak, D.Bind, segments), later, D.Bind, segments)
         == Fixups(RebasesMeant(rebases, segments), BindsMeant(binds, segments) + BindsMeant(weak, segments) + BindsMeant(later, segments))
  {
    assert [] + RebasesMeant(rebases, segments) == RebasesMeant(rebases, segments);
    assert [] + BindsMeant(binds, segments) == BindsMeant(binds, segments);
  }

  // ── a whole image ────────────────────────────────────────────────────────

  /** What a file says, part by part. */
  datatype Image = Image(types: Rest8, flags: Rest8, commands: seq<Command>, rebases: seq<D.Entry>, binds: seq<D.Entry>, weak: seq<D.Entry>, later: seq<D.Entry>,
                         symbols: seq<Nlist>, names: seq<seq<byte>>)

  /** The commands are printed at the front. */
  ghost predicate FrontPrinted(file: seq<byte>, i: Image) {
    && AllPrintable(i.commands) && |i.commands| < 0x1_0000 && |PrintCommands(i.commands)| < 0x1_0000_0000
    && At(file, 0, PrintHeader(i.types, |i.commands|, |PrintCommands(i.commands)|, i.flags) + PrintCommands(i.commands))
  }

  /** The streams stand where the last dyld-info command says, and there are none without one. */
  ghost predicate StreamsPlaced(file: seq<byte>, i: Image) {
    var segments := SegmentsOf(i.commands);
    && GoodEntries(i.rebases, D.Rebase, segments) && GoodEntries(i.binds, D.Bind, segments) && GoodEntries(i.weak, D.Bind, segments) && GoodEntries(i.later, D.Bind, segments)
    && match DyldIn(i.commands, None)
       case None => i.rebases == [] && i.binds == [] && i.weak == [] && i.later == []
       case Some(w) =>
         && StreamStands(file, w[0], w[1], StreamBytes(i.rebases, D.Rebase, false)) && StreamStands(file, w[2], w[3], StreamBytes(i.binds, D.Bind, false))
         && StreamStands(file, w[4], w[5], StreamBytes(i.weak, D.Bind, false)) && StreamStands(file, w[6], w[7], StreamBytes(i.later, D.Bind, true))
  }

  /** The symbols and their names stand where the last symbol table says, and there are none without one. */
  ghost predicate SymbolsPlaced(file: seq<byte>, i: Image) {
    && |i.names| == |i.symbols|
    && match SymtabIn(i.commands, None)
       case None => i.symbols == []
       case Some(t) =>
         && |i.symbols| == t.nsyms && At(file, t.symoff, PrintNlists(i.symbols)) && t.stroff + t.strsize <= |file|
         && NamesStand(file[t.stroff..t.stroff + t.strsize], i.symbols, i.names)
  }

  lemma HeaderOffsets(fs: seq<seq<byte>>)
    requires |fs| == 6 && |fs[0]| == |fs[1]| == 4 && |fs[2]| == 8 && |fs[3]| == |fs[4]| == 4 && |fs[5]| == 8
    ensures Lengths(fs, 0) == 0 && Lengths(fs, 1) == 4 && Lengths(fs, 3) == 16 && Lengths(fs, 4) == 20 && Lengths(fs, 6) == 32
  {
    NextLength(fs, 0, 0, 4);
    NextLength(fs, 1, 4, 4);
    NextLength(fs, 2, 8, 8);
    NextLength(fs, 3, 16, 4);
    NextLength(fs, 4, 20, 4);
    NextLength(fs, 5, 24, 8);
  }

  lemma Back16(d: seq<byte>, off: nat, v: u32)
    requires At(d, off, Le32(v)) && v < 0x1_0000
    ensures ReadLe16(d, off) == v
  {
    FourBytes(v);
    var s := d[off..off + 4];
    assert d[off] == s[0] && d[off + 1] == s[1];
  }

  lemma HeaderRead(file: seq<byte>, types: Rest8, count: u32, size: u32, flags: Rest8)
    requires At(file, 0, PrintHeader(types, count, size, flags)) && count < 0x1_0000
    ensures HeaderError(file) == None && ReadLe16(file, 16) == count && CommandEnd(file) == 32 + size
  {
    var fs := HeaderFields(types, count, size, flags);
    HeaderOffsets(fs);
    FieldAt(file, 0, fs, 0, 0);
    FieldAt(file, 0, fs, 1, 4);
    FieldAt(file, 0, fs, 3, 16);
    FieldAt(file, 0, fs, 4, 20);
    Back32(file, 0, 0xFEED_FACF);
    Back32(file, 4, 0x0100_0007);
    Back16(file, 16, count);
    Back32(file, 20, size);
  }

  lemma FrontRead(file: seq<byte>, i: Image)
    requires FrontPrinted(file, i)
    ensures HeaderError(file) == None && ReadLe16(file, 16) == |i.commands| && CommandEnd(file) <= |file|
    ensures At(file, 32, PrintCommands(i.commands))
  {
    var header := PrintHeader(i.types, |i.commands|, |PrintCommands(i.commands)|, i.flags);
    AtSplit(file, 0, header, PrintCommands(i.commands));
    HeaderRead(file, i.types, |i.commands|, |PrintCommands(i.commands)|, i.flags);
  }

  lemma CommandsRead(file: seq<byte>, i: Image)
    requires FrontPrinted(file, i)
    ensures HeaderError(file) == None && ReadLe16(file, 16) == |i.commands| && CommandEnd(file) <= |file|
    ensures Walk(file, 32, |i.commands|, NONE)
         == Success(Commands(SegmentsOf(i.commands), ListOf(i.commands, 32), SymtabIn(i.commands, None), DyldIn(i.commands, None)))
    ensures Placed(file, ListOf(i.commands, 32)) && TextOf(file, ListOf(i.commands, 32), None) == Success(TextOfAll(i.commands, None))
  {
    FrontRead(file, i);
    WalkPrinted(file, 32, i.commands, NONE);
    CollectedParts(i.commands, 32, NONE);
    assert [] + SegmentsOf(i.commands) == SegmentsOf(i.commands) && [] + ListOf(i.commands, 32) == ListOf(i.commands, 32);
    PrintedStand(file, 32, i.commands);
    TextPrinted(file, 32, i.commands, None);
  }

  lemma FixupsRead(file: seq<byte>, i: Image, symbol: seq<byte>)
    requires StreamsPlaced(file, i) && 0 !in symbol
    ensures var segments := SegmentsOf(i.commands);
            FixupsOf(DyldIn(i.commands, None), Whole(file), segments, symbol).result
            == Success(Fixups(RebasesMeant(i.rebases, segments), BindsMeant(i.binds, segments) + BindsMeant(i.weak, segments) + BindsMeant(i.later, segments)))
  {
    var segments := SegmentsOf(i.commands);
    match DyldIn(i.commands, None)
    case Some(w) => StreamsPrinted(w, file, segments, symbol, i.rebases, i.binds, i.weak, i.later);
    case None =>
      assert RebasesMeant(i.rebases, segments) == [] && BindsMeant(i.binds, segments) + BindsMeant(i.weak, segments) + BindsMeant(i.later, segments) == [];
  }

  lemma SymbolTableRead(file: seq<byte>, i: Image)
    requires SymbolsPlaced(file, i)
    ensures SymbolsOf(SymtabIn(i.commands, None), Whole(file)) == Success(SymbolsMeant(i.symbols, i.names))
  {
    match SymtabIn(i.commands, None)
    case None =>
    case Some(t) =>
      TableRead(file, t, PrintNlists(i.symbols), file[t.stroff..t.stroff + t.strsize]);
      WholeTable(PrintNlists(i.symbols), file[t.stroff..t.stroff + t.strsize], i.symbols, i.names);
  }

  lemma TableRead(file: seq<byte>, t: Symtab, entries: seq<byte>, table: seq<byte>)
    requires |entries| == 16 * t.nsyms && At(file, t.symoff, entries) && At(file, t.stroff, table) && |table| == t.strsize
    ensures SymbolsOf(Some(t), Whole(file)) == Success(Symbols(entries, table, t.nsyms))
  {
    assert Whole(file).Window(t.symoff, t.nsyms * 16) == Some(entries) && Whole(file).Window(t.stroff, t.strsize) == Some(table);
  }

  lemma WholeTable(entries: seq<byte>, table: seq<byte>, ss: seq<Nlist>, names: seq<seq<byte>>)
    requires entries == PrintNlists(ss) && NamesStand(table, ss, names)
    ensures Symbols(entries, table, |ss|) == SymbolsMeant(ss, names)
  {
    assert entries[0..0 + |entries|] == entries;
    PrintedEntriesStand(entries, 0, ss);
    SymbolsPrinted(entries, table, ss, names, |ss|);
    assert ss[..|ss|] == ss && names[..|ss|] == names;
  }

  /**
   * The buffer parser undoes the printer: on a file that says `i`, from any leftover symbol without a NUL, it returns
   * the lowest loadable address and exactly the segments, commands, rebases, binds, symbols and `__text` of `i`.
   */
  lemma OwnedPrinted(file: seq<byte>, i: Image, symbol: seq<byte>)
    requires FrontPrinted(file, i) && StreamsPlaced(file, i) && SymbolsPlaced(file, i) && 0 !in symbol
    requires exists s :: s in SegmentsOf(i.commands) && s.range.Loadable()
    ensures var segments, r := SegmentsOf(i.commands), Owned(file, symbol).result;
            && r.Success?
            && IsBase(segments, Some(r.value.base))
            && r.value.segments == segments && r.value.commands == ListOf(i.commands, 32)
            && r.value.fixups.rebases == RebasesMeant(i.rebases, segments)
            && r.value.fixups.binds == BindsMeant(i.binds, segments) + BindsMeant(i.weak, segments) + BindsMeant(i.later, segments)
            && r.value.symbols == SymbolsMeant(i.symbols, i.names) && r.value.text == TextOfAll(i.commands, None)
  {
    CommandsRead(file, i);
    FixupsRead(file, i, symbol);
    SymbolTableRead(file, i);
  }

  /** Such a file is made by printing the front and putting anything behind it. */
  lemma FrontOf(i: Image, rest: seq<byte>)
    requires AllPrintable(i.commands) && |i.commands| < 0x1_0000 && |PrintCommands(i.commands)| < 0x1_0000_0000
    ensures FrontPrinted(PrintHeader(i.types, |i.commands|, |PrintCommands(i.commands)|, i.flags) + PrintCommands(i.commands) + rest, i)
  {
    var front := PrintHeader(i.types, |i.commands|, |PrintCommands(i.commands)|, i.flags) + PrintCommands(i.commands);
    assert (front + rest)[0..0 + |front|] == front;
  }
}
