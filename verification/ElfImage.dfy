/**
 * An encoder for 64-bit little-endian ELF files, field by field in the order of the System V ABI (chapter 4, "ELF
 * Header" and "Sections"), and the proof that the ranged reader finds in its output what was put there.
 */
module ElfImage {
  import opened Prelude
  import opened GnuNote
  import opened ElfWalk

  // ---------- concatenation ----------

  function Flatten(parts: seq<Bytes>): Bytes {
    if parts == [] then [] else parts[0] + Flatten(parts[1..])
  }

  /** Where part `j` starts. */
  function At(parts: seq<Bytes>, j: nat): nat
    requires j <= |parts|
  {
    if j == 0 then 0 else |parts[0]| + At(parts[1..], j - 1)
  }

  lemma {:induction false} PartAt(parts: seq<Bytes>, j: nat)
    requires j < |parts|
    ensures At(parts, j) + |parts[j]| <= |Flatten(parts)|
    ensures Flatten(parts)[At(parts, j)..At(parts, j) + |parts[j]|] == parts[j]
    decreases j
  {
    if j > 0 {
      PartAt(parts[1..], j - 1);
      var k := At(parts[1..], j - 1);
      assert (parts[0] + Flatten(parts[1..]))[|parts[0]| + k..|parts[0]| + k + |parts[j]|] ==
             Flatten(parts[1..])[k..k + |parts[j]|];
    }
  }

  /** Parts of one size start at its multiples. */
  lemma {:induction false} EvenParts(parts: seq<Bytes>, size: nat, j: nat)
    requires j <= |parts| && forall k :: 0 <= k < |parts| ==> |parts[k]| == size
    ensures At(parts, j) == j * size && |Flatten(parts)| == |parts| * size
    decreases |parts|
  {
    if parts != [] {
      EvenParts(parts[1..], size, if j > 0 then j - 1 else 0);
      assert |parts| * size == size + (|parts| - 1) * size;
      assert j > 0 ==> j * size == size + (j - 1) * size;
    }
  }

  // ---------- the file header ----------

  /** What the file header holds besides the place and shape of the section header table. */
  datatype FileHeader = FileHeader(identRest: Bytes, kind: nat, machine: nat, version: nat, entry: nat, phoff: nat,
                                   flags: nat, ehsize: nat, phentsize: nat, phnum: nat)

  /** e_ident, e_type, e_machine, e_version, e_entry, e_phoff. */
  function BeforeShoff(h: FileHeader): Bytes {
    [0x7f, 0x45, 0x4c, 0x46] + [2] + [1] + h.identRest
    + ToLE(h.kind, 2) + ToLE(h.machine, 2) + ToLE(h.version, 4) + ToLE(h.entry, 8) + ToLE(h.phoff, 8)
  }

  /** e_flags, e_ehsize, e_phentsize, e_phnum. */
  function AfterShoff(h: FileHeader): (b: Bytes)
    ensures |b| == 10
  {
    ToLE(h.flags, 4) + ToLE(h.ehsize, 2) + ToLE(h.phentsize, 2) + ToLE(h.phnum, 2)
  }

  /** ..., e_shoff, ..., e_shentsize, e_shnum, e_shstrndx. */
  function EncodeHeader(h: FileHeader, shoff: nat, entsize: nat, shnum: nat, strndx: nat): Bytes {
    BeforeShoff(h) + ToLE(shoff, 8) + AfterShoff(h) + ToLE(entsize, 2) + ToLE(shnum, 2) + ToLE(strndx, 2)
  }

  const U16 := 0x1_0000
  const U64 := 0x1_0000_0000_0000_0000

  lemma Widths()
    ensures Power256(2) == U16 && Power256(4) == U32 && Power256(8) == U64
  {
    assert Power256(2) == 256 * Power256(1) == 256 * 256;
    assert Power256(4) == 256 * Power256(3) == 256 * 256 * Power256(2);
    assert Power256(8) == 256 * Power256(7) == 256 * 256 * Power256(6) == 256 * 256 * 256 * Power256(5);
  }

  /** A field is read back from where it was written. */
  lemma FieldBack(pre: Bytes, n: nat, width: nat)
    requires n < Power256(width)
    ensures Field(pre + ToLE(n, width), |pre|, width) == Some(n)
  {
    LERoundTrip(n, width);
    assert (pre + ToLE(n, width))[|pre|..|pre| + width] == ToLE(n, width);
  }

  /** What follows a field does not matter. */
  lemma FieldKept(b: Bytes, more: Bytes, offset: nat, width: nat)
    requires offset + width <= |b|
    ensures Field(b + more, offset, width) == Field(b, offset, width)
  {
    assert (b + more)[offset..offset + width] == b[offset..offset + width];
  }

  lemma HeaderBack(h: FileHeader, shoff: nat, entsize: nat, shnum: nat, strndx: nat)
    requires |h.identRest| == 10 && shoff < U64 && entsize < U16 && shnum < U16 && strndx < U16
    ensures var header := EncodeHeader(h, shoff, entsize, shnum, strndx);
      Elf64Little(header) && LayoutOf(header) == Layout(shoff, entsize, shnum, strndx)
  {
    Widths();
    var t0 := BeforeShoff(h);
    assert |t0| == 0x28 && t0[..4] == ElfMagic && t0[4] == 2 && t0[5] == 1;
    hide BeforeShoff, AfterShoff, ToLE, Power256, Field;
    var t1 := t0 + ToLE(shoff, 8);
    var t2 := t1 + AfterShoff(h);
    var t3 := t2 + ToLE(entsize, 2);
    var t4 := t3 + ToLE(shnum, 2);
    var t5 := t4 + ToLE(strndx, 2);
    assert t5 == EncodeHeader(h, shoff, entsize, shnum, strndx) && t5[..4] == t0[..4];
    FieldBack(t0, shoff, 8);
    FieldKept(t1, AfterShoff(h), 0x28, 8);
    FieldKept(t2, ToLE(entsize, 2), 0x28, 8);
    FieldKept(t3, ToLE(shnum, 2), 0x28, 8);
    FieldKept(t4, ToLE(strndx, 2), 0x28, 8);
    FieldBack(t2, entsize, 2);
    FieldKept(t3, ToLE(shnum, 2), 0x3A, 2);
    FieldKept(t4, ToLE(strndx, 2), 0x3A, 2);
    FieldBack(t3, shnum, 2);
    FieldKept(t4, ToLE(strndx, 2), 0x3C, 2);
    FieldBack(t4, strndx, 2);
  }

  // ---------- a section header ----------

  datatype Section = Section(name: Bytes, kind: nat, flags: nat, addr: nat, link: nat, info: nat, align: nat,
                             entrySize: nat, body: Bytes)

  /** sh_flags, sh_addr. */
  function BeforeOffset(s: Section): (b: Bytes)
    ensures |b| == 16
  {
    ToLE(s.flags, 8) + ToLE(s.addr, 8)
  }

  /** sh_link, sh_info, sh_addralign, sh_entsize. */
  function AfterSize(s: Section): (b: Bytes)
    ensures |b| == 24
  {
    ToLE(s.link, 4) + ToLE(s.info, 4) + ToLE(s.align, 8) + ToLE(s.entrySize, 8)
  }

  /** sh_name, sh_type, ..., sh_offset, sh_size, ... and what the file header's entry size leaves over. */
  function EncodeSection(s: Section, nameAt: nat, offset: nat, extra: nat): (b: Bytes)
    ensures |b| == 64 + extra
  {
    ToLE(nameAt, 4) + ToLE(s.kind, 4) + BeforeOffset(s) + ToLE(offset, 8) + ToLE(|s.body|, 8) + AfterSize(s)
    + Zeros(extra)
  }

  lemma SectionBack(s: Section, nameAt: nat, offset: nat, extra: nat)
    requires nameAt < U32 && s.kind < U32 && offset < U64 && |s.body| < U64
    ensures var b := EncodeSection(s, nameAt, offset, extra);
      && Field(b, 0, 4) == Some(nameAt) && Field(b, 4, 4) == Some(s.kind)
      && Field(b, 0x18, 8) == Some(offset) && Field(b, 0x20, 8) == Some(|s.body|)
  {
    Widths();
    hide BeforeOffset, AfterSize, ToLE, Power256, Field, Zeros;
    var t1 := ToLE(nameAt, 4);
    var t2 := t1 + ToLE(s.kind, 4);
    var t3 := t2 + BeforeOffset(s);
    var t4 := t3 + ToLE(offset, 8);
    var t5 := t4 + ToLE(|s.body|, 8);
    var rest := AfterSize(s) + Zeros(extra);
    assert t5 + rest == EncodeSection(s, nameAt, offset, extra) && [] + t1 == t1;
    FieldBack([], nameAt, 4);
    FieldKept(t1, ToLE(s.kind, 4), 0, 4);
    FieldBack(t1, s.kind, 4);
    FieldsKept(t2, BeforeOffset(s));
    FieldsKept(t3, ToLE(offset, 8));
    FieldsKept(t4, ToLE(|s.body|, 8));
    FieldsKept(t5, rest);
    FieldBack(t3, offset, 8);
    FieldKept(t4, ToLE(|s.body|, 8), 0x18, 8);
    FieldKept(t5, rest, 0x18, 8);
    FieldBack(t4, |s.body|, 8);
    FieldKept(t5, rest, 0x20, 8);
  }

  /** The two fields every section header starts with. */
  lemma FieldsKept(b: Bytes, more: Bytes)
    requires |b| >= 8
    ensures Field(b + more, 0, 4) == Field(b, 0, 4) && Field(b + more, 4, 4) == Field(b, 4, 4)
  {
    FieldKept(b, more, 0, 4);
    FieldKept(b, more, 4, 4);
  }

  // ---------- the whole file ----------

  /**
   * Sections before and after the section-name string table, which is built from the names. The bodies follow the file
   * header in section order; then comes the section header table, with `extra` bytes after each entry, and any tail.
   */
  datatype File = File(header: FileHeader, before: seq<Section>, after: seq<Section>, stringsName: Bytes, extra: nat,
                       tail: Bytes)

  function Terminated(names: seq<Bytes>): (r: seq<Bytes>)
    ensures |r| == |names|
  {
    seq(|names|, i requires 0 <= i < |names| => names[i] + [0])
  }

  function NamesOf(sections: seq<Section>): (r: seq<Bytes>)
    ensures |r| == |sections|
  {
    seq(|sections|, i requires 0 <= i < |sections| => sections[i].name)
  }

  function Names(f: File): seq<Bytes> {
    NamesOf(f.before) + [f.stringsName] + NamesOf(f.after)
  }

  function StringTable(f: File): Section {
    Section(f.stringsName, 3, 0, 0, 0, 0, 1, 0, Flatten(Terminated(Names(f))))
  }

  function Sections(f: File): seq<Section> {
    f.before + [StringTable(f)] + f.after
  }

  function Bodies(f: File): (r: seq<Bytes>)
    ensures |r| == |Sections(f)|
  {
    seq(|Sections(f)|, i requires 0 <= i < |Sections(f)| => Sections(f)[i].body)
  }

  function NameAt(f: File, j: nat): nat
    requires j < |Sections(f)|
  {
    At(Terminated(Names(f)), j)
  }

  function BodyAt(f: File, j: nat): nat
    requires j < |Sections(f)|
  {
    64 + At(Bodies(f), j)
  }

  function SectionHeaders(f: File): (r: seq<Bytes>)
    ensures |r| == |Sections(f)|
  {
    seq(|Sections(f)|, i requires 0 <= i < |Sections(f)| =>
      EncodeSection(Sections(f)[i], NameAt(f, i), BodyAt(f, i), f.extra))
  }

  function TableAt(f: File): nat {
    64 + |Flatten(Bodies(f))|
  }

  function SectionTable(f: File): Bytes {
    Flatten(SectionHeaders(f))
  }

  /** What the file header says of the section header table. */
  function LayoutIn(f: File): Layout {
    Layout(TableAt(f), 64 + f.extra, |Sections(f)|, |f.before|)
  }

  function EncodedHeader(f: File): Bytes {
    EncodeHeader(f.header, TableAt(f), 64 + f.extra, |Sections(f)|, |f.before|)
  }

  function EncodeFile(f: File): Bytes {
    EncodedHeader(f) + Flatten(Bodies(f)) + SectionTable(f) + f.tail
  }

  /** Every value fits its field, and names hold no NUL. */
  ghost predicate Encodes(f: File) {
    && |f.header.identRest| == 10
    && 64 + f.extra < U16 && |Sections(f)| < U16
    && |EncodeFile(f)| < U64 && |StringTable(f).body| < U32
    && (forall j :: 0 <= j < |Sections(f)| ==> Sections(f)[j].kind < U32)
    && (forall j :: 0 <= j < |Names(f)| ==> 0 !in Names(f)[j])
  }

  /** The section header table and the string table are within the reader's cap, and the declared size covers the file. */
  ghost predicate WithinCaps(f: File, maxSize: nat) {
    && (64 + f.extra) * |Sections(f)| <= 16 * 1024 * 1024
    && |StringTable(f).body| <= 16 * 1024 * 1024
    && |EncodeFile(f)| <= maxSize
  }

  /** A piece of a file is read back by its range. */
  lemma RangeBack(pre: Bytes, piece: Bytes, post: Bytes)
    ensures GetRange(pre + piece + post, |pre|, |piece|) == piece
  {
  }

  lemma HeaderFirst(f: File)
    requires |f.header.identRest| == 10
    ensures |EncodedHeader(f)| == 64 && GetRange(EncodeFile(f), 0, 64) == EncodedHeader(f)
  {
    assert |BeforeShoff(f.header)| == 0x28;
    hide Flatten, Bodies, SectionHeaders, BeforeShoff;
  }

  lemma FileHeaderBack(f: File)
    requires Encodes(f)
    ensures var header := GetRange(EncodeFile(f), 0, 64);
      Elf64Little(header) && LayoutOf(header) == LayoutIn(f)
  {
    HeaderFirst(f);
    assert |EncodeFile(f)| >= TableAt(f);
    hide EncodeHeader, LayoutOf, Elf64Little, GetRange, EncodeFile, TableAt;
    HeaderBack(f.header, TableAt(f), 64 + f.extra, |Sections(f)|, |f.before|);
  }

  lemma TableSize(f: File)
    ensures |SectionTable(f)| == (64 + f.extra) * |Sections(f)|
  {
    hide Flatten, EncodeSection, NameAt, BodyAt, Sections;
    EvenParts(SectionHeaders(f), 64 + f.extra, 0);
    assert |Sections(f)| * (64 + f.extra) == (64 + f.extra) * |Sections(f)|;
  }

  /** The section header table is read back whole. */
  lemma TableBack(f: File)
    requires |f.header.identRest| == 10
    ensures GetRange(EncodeFile(f), LayoutIn(f).shoff, LayoutIn(f).entsize * LayoutIn(f).shnum) == SectionTable(f)
  {
    hide EncodedHeader, Flatten, Bodies, SectionTable, GetRange, Sections;
    HeaderFirst(f);
    TableSize(f);
    RangeBack(EncodedHeader(f) + Flatten(Bodies(f)), SectionTable(f), f.tail);
  }

  /** Where entry `j` of the section header table starts. */
  function EntryAt(f: File, j: nat): nat {
    j * (64 + f.extra)
  }

  /** A field of entry `j` is that field of section `j`'s header. */
  lemma EntryField(f: File, j: nat, offset: nat, width: nat)
    requires j < |Sections(f)| && offset + width <= 64 + f.extra
    ensures Field(SectionTable(f), EntryAt(f, j) + offset, width) == Field(SectionHeaders(f)[j], offset, width)
  {
    hide Flatten, EncodeSection, Field, At, NameAt, BodyAt, Sections;
    var parts, size := SectionHeaders(f), 64 + f.extra;
    PartAt(parts, j);
    EvenParts(parts, size, j);
    SliceField(SectionTable(f), EntryAt(f, j), size, offset, width);
  }

  /** A field inside a slice is a field of the whole. */
  lemma SliceField(b: Bytes, at: nat, size: nat, offset: nat, width: nat)
    requires at + size <= |b| && offset + width <= size
    ensures Field(b, at + offset, width) == Field(b[at..at + size], offset, width)
  {
    var x, y := b[at..at + size][offset..offset + width], b[at + offset..at + offset + width];
    assert forall k :: 0 <= k < width ==> x[k] == b[at + offset + k];
    assert x == y;
  }

  lemma BodyBack(f: File, j: nat)
    requires |f.header.identRest| == 10 && j < |Sections(f)|
    ensures BodyAt(f, j) + |Sections(f)[j].body| <= |EncodeFile(f)|
    ensures GetRange(EncodeFile(f), BodyAt(f, j), |Sections(f)[j].body|) == Sections(f)[j].body
  {
    HeaderFirst(f);
    PartAt(Bodies(f), j);
    PieceBack(EncodedHeader(f), Flatten(Bodies(f)), SectionTable(f), f.tail, At(Bodies(f), j), |Sections(f)[j].body|);
    hide EncodedHeader, Flatten, At, GetRange, SectionHeaders;
  }

  /** A range inside the second of four pieces. */
  lemma PieceBack(a: Bytes, b: Bytes, c: Bytes, d: Bytes, at: nat, n: nat)
    requires at + n <= |b|
    ensures GetRange(a + b + c + d, |a| + at, n) == b[at..at + n]
  {
    assert (a + b + c + d)[|a| + at..|a| + at + n] == b[at..at + n];
  }

  /** What the reader sees of section `j` in the section header table. */
  lemma EntryBack(f: File, j: nat)
    requires Encodes(f) && j < |Sections(f)|
    ensures var sht := SectionTable(f); var e := EntryAt(f, j); var s := Sections(f)[j];
      && Field(sht, e, 4) == Some(NameAt(f, j)) && Field(sht, e + 4, 4) == Some(s.kind)
      && Field(sht, e + 0x18, 8) == Some(BodyAt(f, j)) && Field(sht, e + 0x20, 8) == Some(|s.body|)
  {
    var s := Sections(f)[j];
    BodyBack(f, j);
    NameInTable(f, j);
    hide SectionTable, EncodeSection, EncodeFile, Encodes, At, Field;
    EncodedFits(f, j);
    EntryField(f, j, 0, 4);
    EntryField(f, j, 4, 4);
    EntryField(f, j, 0x18, 8);
    EntryField(f, j, 0x20, 8);
    SectionBack(s, NameAt(f, j), BodyAt(f, j), f.extra);
  }

  lemma EncodedFits(f: File, j: nat)
    requires Encodes(f) && j < |Sections(f)|
    ensures |EncodeFile(f)| < U64 && |StringTable(f).body| < U32 && Sections(f)[j].kind < U32
  {
  }

  /** The name of section `j` stands in the string table at its offset, with its NUL. */
  lemma NameInTable(f: File, j: nat)
    requires j < |Sections(f)|
    ensures Names(f)[j] == Sections(f)[j].name
    ensures var strings := StringTable(f).body; var name := Sections(f)[j].name;
      NameAt(f, j) + |name| < |strings| && strings[NameAt(f, j)..NameAt(f, j) + |name| + 1] == name + [0]
  {
    hide Flatten, At;
    PartAt(Terminated(Names(f)), j);
  }

  lemma {:induction false} CStringBack(b: Bytes, at: nat, name: Bytes)
    requires at + |name| < |b| && b[at..at + |name| + 1] == name + [0] && 0 !in name
    ensures CString(b, at) == Some(name)
    decreases |name|
  {
    assert b[at] == (name + [0])[0];
    if name != [] {
      assert b[at + 1..at + |name| + 1] == b[at..at + |name| + 1][1..];
      assert (name + [0])[1..] == name[1..] + [0];
      CStringBack(b, at + 1, name[1..]);
      assert name == [name[0]] + name[1..];
    }
  }

  lemma NameBack(f: File, j: nat)
    requires Encodes(f) && j < |Sections(f)|
    ensures SectionName(SectionTable(f), StringTable(f).body, 64 + f.extra, j) == Some(Sections(f)[j].name)
  {
    EntryBack(f, j);
    NameInTable(f, j);
    assert 0 !in Names(f)[j];
    hide SectionTable, Field, StringTable, Sections, NameAt, Encodes;
    CStringBack(StringTable(f).body, NameAt(f, j), Sections(f)[j].name);
  }

  predicate BuildIdNotes(s: Section) {
    s.kind == 7 && s.name == [46, 110, 111, 116, 101, 46, 103, 110, 117, 46, 98, 117, 105, 108, 100, 45, 105, 100]
  }

  /** Section `i` is the first one of type SHT_NOTE named `.note.gnu.build-id`. */
  ghost predicate FirstNotes(f: File, i: nat) {
    i < |Sections(f)| && BuildIdNotes(Sections(f)[i]) && forall j :: 0 <= j < i ==> !BuildIdNotes(Sections(f)[j])
  }

  /** The reader stops at a section exactly when it is the first build-id section of the file. */
  lemma FirstNotesBack(f: File, i: nat)
    requires Encodes(f)
    ensures FirstBuildIdSection(SectionTable(f), StringTable(f).body, LayoutIn(f), i) <==> FirstNotes(f, i)
  {
    var sht, strings, e := SectionTable(f), StringTable(f).body, 64 + f.extra;
    hide SectionTable, StringTable, Sections, Encodes, Field, SectionName;
    forall j: nat | j < |Sections(f)|
      ensures IsNoteSection(sht, e, j) && SectionName(sht, strings, e, j) == Some(BuildIdSection) <==>
                BuildIdNotes(Sections(f)[j])
      ensures PassedOver(sht, strings, e, j) <==> !BuildIdNotes(Sections(f)[j])
    {
      EntryBack(f, j);
      NameBack(f, j);
    }
    hide IsNoteSection, PassedOver, BuildIdNotes;
  }

  /** The reader finds section `j` where the encoder put it. */
  lemma SectionRangeBack(f: File, maxSize: nat, j: nat)
    requires Encodes(f) && j < |Sections(f)| && |Sections(f)[j].body| <= 16 * 1024 * 1024 && |EncodeFile(f)| <= maxSize
    ensures SectionRange(SectionTable(f), 64 + f.extra, j, maxSize) ==
              Some((BodyAt(f, j), |Sections(f)[j].body|))
  {
    BodyBack(f, j);
    EntryBack(f, j);
    hide SectionTable, EncodeFile, Encodes, Field, At;
  }

  /** The reader's steps, once the file header, the section header table and the string table are known. */
  lemma NotesAtExactly(data: Bytes, maxSize: nat, i: nat, notes: Bytes, l: Layout, names: (nat, nat))
    requires Elf64Little(GetRange(data, 0, 64)) && LayoutOf(GetRange(data, 0, 64)) == l && UsableTable(l, maxSize)
    requires SectionRange(GetRange(data, l.shoff, l.entsize * l.shnum), l.entsize, l.strndx, maxSize) == Some(names)
    ensures var sht := GetRange(data, l.shoff, l.entsize * l.shnum);
      NotesAt(data, maxSize, i, notes) <==>
      && FirstBuildIdSection(sht, GetRange(data, names.0, names.1), l, i)
      && SectionRange(sht, l.entsize, i, maxSize).Some?
      && notes == SectionBytes(data, sht, l.entsize, i, maxSize)
  {
    hide GetRange, LayoutOf, Elf64Little, SectionRange, FirstBuildIdSection, UsableTable;
  }

  lemma TableUsable(f: File, maxSize: nat)
    requires Encodes(f) && WithinCaps(f, maxSize)
    ensures UsableTable(LayoutIn(f), maxSize)
  {
    hide EncodedHeader, Flatten, Bodies, SectionTable;
    HeaderFirst(f);
    TableSize(f);
  }

  /** A body over the cap has no readable range. */
  lemma OverCap(f: File, maxSize: nat, j: nat)
    requires Encodes(f) && j < |Sections(f)| && |Sections(f)[j].body| > 16 * 1024 * 1024
    ensures SectionRange(SectionTable(f), 64 + f.extra, j, maxSize) == None
  {
    EntryBack(f, j);
    hide SectionTable, EncodeFile, Encodes, Field, At, Sections;
  }

  /** In an encoded file the reader takes the first build-id section's body for the notes, if that is within the cap. */
  lemma NotesBack(f: File, maxSize: nat, i: nat, notes: Bytes)
    requires Encodes(f) && WithinCaps(f, maxSize)
    ensures NotesAt(EncodeFile(f), maxSize, i, notes) <==>
              FirstNotes(f, i) && |Sections(f)[i].body| <= 16 * 1024 * 1024 && notes == Sections(f)[i].body
  {
    assert |StringTable(f).body| <= 16 * 1024 * 1024 && |EncodeFile(f)| <= maxSize && |f.header.identRest| == 10;
    assert |f.before| < |Sections(f)| && Sections(f)[|f.before|] == StringTable(f);
    assert LayoutIn(f).entsize == 64 + f.extra && LayoutIn(f).strndx == |f.before|;
    hide SectionTable, EncodeFile, Encodes, LayoutOf, Elf64Little, StringTable, Sections, GetRange, LayoutIn,
      FirstBuildIdSection, UsableTable, WithinCaps, SectionRange, NotesAt, BodyAt;
    FileHeaderBack(f);
    TableBack(f);
    TableUsable(f, maxSize);
    BodyBack(f, |f.before|);
    SectionRangeBack(f, maxSize, |f.before|);
    NotesAtExactly(EncodeFile(f), maxSize, i, notes, LayoutIn(f), (BodyAt(f, |f.before|), |StringTable(f).body|));
    FirstNotesBack(f, i);
    if i < |Sections(f)| {
      BodyBack(f, i);
      if |Sections(f)[i].body| <= 16 * 1024 * 1024 {
        SectionRangeBack(f, maxSize, i);
      } else {
        OverCap(f, maxSize, i);
      }
    }
  }

  /**
   * The round trip. Of every encodable file within the caps whose first build-id section holds `notes`, the reader
   * reports exactly the first GNU build-id among them.
   */
  lemma EncodedFileCarries(f: File, maxSize: nat, i: nat, notes: seq<Note>, desc: Bytes)
    requires Encodes(f) && WithinCaps(f, maxSize) && FirstNotes(f, i)
    requires (forall k :: 0 <= k < |notes| ==> Encodable(notes[k])) && Sections(f)[i].body == Encode(notes)
    requires |Encode(notes)| <= 16 * 1024 * 1024
    ensures Carries(EncodeFile(f), maxSize, desc) <==> FirstBuildId(notes) == Some(desc)
  {
    hide EncodeFile, Encodes, WithinCaps, Sections, NotesAt, Encode, FirstBuildId, Carries;
    NotesBack(f, maxSize, i, Encode(notes));
    CarriesEncodedNotes(EncodeFile(f), maxSize, i, notes, desc);
  }

  /** Without a build-id section, or with a first one over the cap, the reader reports nothing. */
  lemma NoNotesNoBuildId(f: File, maxSize: nat, desc: Bytes)
    requires Encodes(f) && WithinCaps(f, maxSize)
    requires forall i: nat :: FirstNotes(f, i) ==> |Sections(f)[i].body| > 16 * 1024 * 1024
    ensures !Carries(EncodeFile(f), maxSize, desc)
  {
    hide EncodeFile, Encodes, WithinCaps, Sections, NotesAt, FirstNotes, Scan;
    forall i: nat, notes: Bytes ensures !NotesAt(EncodeFile(f), maxSize, i, notes) {
      NotesBack(f, maxSize, i, notes);
    }
  }

  const PlainHeader := FileHeader(Zeros(10), 0, 0, 0, 0, 0, 0, 0, 0, 0)

  /** The smallest file that carries some notes: their section and the string table. */
  function NotesFile(notes: Bytes): File {
    File(PlainHeader, [Section(BuildIdSection, NoteType, 0, 0, 0, 0, 4, 0, notes)], [], [], 0, [])
  }

  lemma TwoParts(parts: seq<Bytes>)
    requires |parts| == 2
    ensures |Flatten(parts)| == |parts[0]| + |parts[1]|
  {
    assert Flatten(parts[1..]) == parts[1] + Flatten(parts[1..][1..]) && Flatten(parts[1..][1..]) == [];
  }

  lemma NotesFileSize(notes: Bytes)
    ensures |StringTable(NotesFile(notes)).body| == 20 && |EncodeFile(NotesFile(notes))| == |notes| + 212
  {
    hide Flatten, EncodedHeader, SectionHeaders;
    var f := NotesFile(notes);
    TwoParts(Terminated(Names(f)));
    TwoParts(Bodies(f));
    HeaderFirst(f);
    TableSize(f);
  }

  lemma NotesFileEncodes(notes: Bytes)
    requires |notes| <= MaxSectionBytes
    ensures var f := NotesFile(notes);
      && Encodes(f) && WithinCaps(f, |EncodeFile(f)|) && FirstNotes(f, 0) && Sections(f)[0].body == notes
  {
    NotesFileSize(notes);
    hide EncodeFile, Flatten;
    var f := NotesFile(notes);
    assert Names(f)[0] == BuildIdSection && Names(f)[1] == [];
    assert BuildIdNotes(Sections(f)[0]);
  }

  /** Any notes within the cap can be shipped: there is such a file, and the reader gets their build-id back from it. */
  lemma EveryBuildIdShips(notes: seq<Note>, desc: Bytes)
    requires forall k :: 0 <= k < |notes| ==> Encodable(notes[k])
    requires |Encode(notes)| <= MaxSectionBytes
    ensures var data := EncodeFile(NotesFile(Encode(notes)));
      Carries(data, |data|, desc) <==> FirstBuildId(notes) == Some(desc)
  {
    hide EncodeFile, Encode, FirstBuildId, Carries, Encodes, WithinCaps, FirstNotes, Sections, NotesFile;
    var f := NotesFile(Encode(notes));
    NotesFileEncodes(Encode(notes));
    EncodedFileCarries(f, |EncodeFile(f)|, 0, notes, desc);
  }
}
