/**
 * The bounded reader that finds a kernel image's build-id by ranged reads of its ELF header, section header table and
 * note section (System V ABI, chapter 4, "Sections"). Every failure is a build failure.
 */
module ElfWalk {
  import opened Prelude
  import opened GnuNote

  const MaxSectionBytes: nat := 16 * 1024 * 1024
  const NoteType := 7
  const ElfMagic: Bytes := [0x7f, 0x45, 0x4c, 0x46]

  /** `.note.gnu.build-id` */
  const BuildIdSection: Bytes :=
    [46, 110, 111, 116, 101, 46, 103, 110, 117, 46, 98, 117, 105, 108, 100, 45, 105, 100]

  function Min(a: nat, b: nat): nat {
    if a <= b then a else b
  }

  /** A ranged read, cut off at the end of the object. */
  function GetRange(data: Bytes, start: nat, length: nat): Bytes {
    data[Min(start, |data|)..Min(start + length, |data|)]
  }

  /** A fixed-width field, if the buffer is long enough to hold it. */
  function Field(b: Bytes, offset: nat, width: nat): Option<nat> {
    if offset + width <= |b| then Some(FromLE(b[offset..offset + width])) else None
  }

  datatype Layout = Layout(shoff: nat, entsize: nat, shnum: nat, strndx: nat)

  predicate Elf64Little(header: Bytes) {
    |header| == 64 && header[..4] == ElfMagic && header[4] == 2 && header[5] == 1
  }

  function LayoutOf(header: Bytes): Layout
    requires Elf64Little(header)
  {
    Layout(Field(header, 0x28, 8).value, Field(header, 0x3A, 2).value,
           Field(header, 0x3C, 2).value, Field(header, 0x3E, 2).value)
  }

  /** The section header table exists, is no larger than the cap and lies inside the declared object. */
  predicate UsableTable(l: Layout, maxSize: nat) {
    && l.shoff != 0 && l.shnum != 0 && l.entsize >= 64
    && l.entsize * l.shnum <= MaxSectionBytes
    && l.shoff + l.entsize * l.shnum <= maxSize
  }

  /** Where section `i` lies, if its header is readable and its bytes are within the cap and the declared object. */
  function SectionRange(sht: Bytes, entsize: nat, i: nat, maxSize: nat): Option<(nat, nat)> {
    match (Field(sht, i * entsize + 0x18, 8), Field(sht, i * entsize + 0x20, 8))
    case (Some(offset), Some(size)) =>
      if size <= MaxSectionBytes && offset + size <= maxSize then Some((offset, size)) else None
    case _ => None
  }

  /** The bytes up to the first NUL at or after `offset`. */
  function CString(b: Bytes, offset: nat): Option<Bytes>
    decreases |b| - offset
  {
    if offset >= |b| then None
    else if b[offset] == 0 then Some([])
    else
      match CString(b, offset + 1)
      case None => None
      case Some(rest) => Some([b[offset]] + rest)
  }

  function SectionName(sht: Bytes, strtab: Bytes, entsize: nat, i: nat): Option<Bytes> {
    match Field(sht, i * entsize, 4)
    case None => None
    case Some(at) => CString(strtab, at)
  }

  predicate IsNoteSection(sht: Bytes, entsize: nat, i: nat) {
    Field(sht, i * entsize + 4, 4) == Some(NoteType)
  }

  /** Section `i` can be passed over: its type is readable, and if it is a note section it has another name. */
  predicate PassedOver(sht: Bytes, strtab: Bytes, entsize: nat, i: nat) {
    && Field(sht, i * entsize + 4, 4).Some?
    && (IsNoteSection(sht, entsize, i) ==>
          SectionName(sht, strtab, entsize, i).Some? && SectionName(sht, strtab, entsize, i).value != BuildIdSection)
  }

  /** Section `i` is the first note section that bears the build-id name. */
  ghost predicate FirstBuildIdSection(sht: Bytes, strtab: Bytes, l: Layout, i: nat) {
    && i < l.shnum
    && IsNoteSection(sht, l.entsize, i) && SectionName(sht, strtab, l.entsize, i) == Some(BuildIdSection)
    && forall j: nat :: j < i ==> PassedOver(sht, strtab, l.entsize, j)
  }

  /** The notes of the first build-id section of a well-formed image, and the section's index. */
  ghost predicate NotesAt(data: Bytes, maxSize: nat, i: nat, notes: Bytes) {
    var header := GetRange(data, 0, 64);
    && Elf64Little(header)
    && (var l := LayoutOf(header);
        && UsableTable(l, maxSize)
        && (var sht := GetRange(data, l.shoff, l.entsize * l.shnum);
            var names := SectionRange(sht, l.entsize, l.strndx, maxSize);
            && names.Some?
            && FirstBuildIdSection(sht, GetRange(data, names.value.0, names.value.1), l, i)
            && (var body := SectionRange(sht, l.entsize, i, maxSize);
                body.Some? && notes == GetRange(data, body.value.0, body.value.1))))
  }

  /** The build-id the image carries. */
  ghost predicate Carries(data: Bytes, maxSize: nat, desc: Bytes) {
    exists i: nat, notes: Bytes :: NotesAt(data, maxSize, i, notes) && Scan(notes) == Some(desc)
  }

  type Reads = seq<(nat, nat)>

  /** Within the declared object and the cap. */
  predicate Bounded(read: (nat, nat), maxSize: nat) {
    read.0 + read.1 <= maxSize && read.1 <= MaxSectionBytes
  }

  /** The bytes of a section whose header is in range. */
  function SectionBytes(data: Bytes, sht: Bytes, entsize: nat, i: nat, maxSize: nat): Bytes
    requires SectionRange(sht, entsize, i, maxSize).Some?
  {
    var (at, size) := SectionRange(sht, entsize, i, maxSize).value;
    GetRange(data, at, size)
  }

  method ReadSection(data: Bytes, sht: Bytes, entsize: nat, i: nat, maxSize: nat) returns (r: Option<Bytes>, log: Reads)
    ensures r == match SectionRange(sht, entsize, i, maxSize)
                 case Some((at, size)) => Some(GetRange(data, at, size))
                 case None => None
    ensures forall k :: 0 <= k < |log| ==> Bounded(log[k], maxSize)
  {
    var offset, size := Field(sht, i * entsize + 0x18, 8), Field(sht, i * entsize + 0x20, 8);
    if offset.None? || size.None? || size.value > MaxSectionBytes || offset.value + size.value > maxSize {
      return None, [];
    }
    return Some(GetRange(data, offset.value, size.value)), [(offset.value, size.value)];
  }

  method FindBuildIdNote(data: Bytes, sht: Bytes, strtab: Bytes, l: Layout, maxSize: nat)
    returns (r: Option<string>, log: Reads, ghost found: Option<nat>)
    ensures found.Some? ==> FirstBuildIdSection(sht, strtab, l, found.value)
    ensures found.Some? ==>
      r == match SectionRange(sht, l.entsize, found.value, maxSize)
           case None => None
           case Some((at, size)) =>
             match Scan(GetRange(data, at, size)) case None => None case Some(desc) => Some(Hex(desc))
    ensures found.None? ==> r.None? && forall i: nat :: !FirstBuildIdSection(sht, strtab, l, i)
    ensures forall k :: 0 <= k < |log| ==> Bounded(log[k], maxSize)
  {
    hide FromLE, CString, GetRange, Scan, SectionRange, Hex;
    for i := 0 to l.shnum
      invariant forall j: nat :: j < i ==> PassedOver(sht, strtab, l.entsize, j)
    {
      var at, kind := Field(sht, i * l.entsize, 4), Field(sht, i * l.entsize + 4, 4);
      if at.None? || kind.None? {
        NoneFirst(sht, strtab, l, i);
        return None, [], None;
      }
      if kind.value == NoteType {
        var name := CString(strtab, at.value);
        if name.None? {
          NoneFirst(sht, strtab, l, i);
          return None, [], None;
        }
        if name.value == BuildIdSection {
          var notes;
          notes, log := ReadSection(data, sht, l.entsize, i, maxSize);
          if notes.None? {
            return None, log, Some(i);
          }
          var id := ParseGnuBuildId(notes.value);
          return if id.Ok? then Some(id.value) else None, log, Some(i);
        }
      }
    }
    NoneFirst(sht, strtab, l, l.shnum);
    return None, [], None;
  }

  /** If the walk passes over everything below `i` and then ends, or stops at `i` unmatched, no section comes first. */
  lemma NoneFirst(sht: Bytes, strtab: Bytes, l: Layout, i: nat)
    requires forall j: nat :: j < i ==> PassedOver(sht, strtab, l.entsize, j)
    requires i < l.shnum ==>
      && !PassedOver(sht, strtab, l.entsize, i)
      && !(IsNoteSection(sht, l.entsize, i) && SectionName(sht, strtab, l.entsize, i) == Some(BuildIdSection))
    ensures forall k: nat :: !FirstBuildIdSection(sht, strtab, l, k)
  {
    forall k: nat ensures !FirstBuildIdSection(sht, strtab, l, k) {
      assert k < i ==> PassedOver(sht, strtab, l.entsize, k);
    }
  }

  /** Two sections cannot both come first. */
  lemma FirstIsUnique(sht: Bytes, strtab: Bytes, l: Layout, i: nat, j: nat)
    requires FirstBuildIdSection(sht, strtab, l, i) && FirstBuildIdSection(sht, strtab, l, j)
    ensures i == j
  {
    assert i < j ==> PassedOver(sht, strtab, l.entsize, i);
    assert j < i ==> PassedOver(sht, strtab, l.entsize, j);
  }

  method ExtractBuildIdRanged(data: Bytes, maxSize: nat) returns (r: Result<string, string>, log: Reads)
    ensures |log| > 0 && log[0] == (0, 64)
    ensures forall k :: 0 < k < |log| ==> Bounded(log[k], maxSize)
    ensures r.Ok? ==> exists desc :: Carries(data, maxSize, desc) && r.value == Hex(desc)
    ensures r.Err? ==> forall desc :: !Carries(data, maxSize, desc)
  {
    hide Elf64Little, LayoutOf, UsableTable, SectionRange, FirstBuildIdSection, Scan, Hex;
    var failure: Result<string, string> := Err("build_failure");
    log := [(0, 64)];
    var header := GetRange(data, 0, 64);
    if !Elf64Little(header) {
      return failure, log;
    }
    var l := LayoutOf(header);
    if !UsableTable(l, maxSize) {
      return failure, log;
    }
    assert Bounded((l.shoff, l.entsize * l.shnum), maxSize) by {
      TableBounded(l, maxSize);
    }
    var sht := GetRange(data, l.shoff, l.entsize * l.shnum);
    log := log + [(l.shoff, l.entsize * l.shnum)];
    var strtab, more := ReadSection(data, sht, l.entsize, l.strndx, maxSize);
    log := log + more;
    if strtab.None? {
      return failure, log;
    }
    var id, last, found := FindBuildIdNote(data, sht, strtab.value, l, maxSize);
    log := log + last;
    OnlyCandidate(data, maxSize, l, sht, strtab.value, found);
    if id.None? {
      return failure, log;
    }
    return Ok(id.value), log;
  }

  lemma TableBounded(l: Layout, maxSize: nat)
    requires UsableTable(l, maxSize)
    ensures Bounded((l.shoff, l.entsize * l.shnum), maxSize)
  {
  }

  /** The section the walk found, if any, is the only one the image's build-id can come from. */
  lemma OnlyCandidate(data: Bytes, maxSize: nat, l: Layout, sht: Bytes, strtab: Bytes, found: Option<nat>)
    requires Elf64Little(GetRange(data, 0, 64)) && l == LayoutOf(GetRange(data, 0, 64)) && UsableTable(l, maxSize)
    requires sht == GetRange(data, l.shoff, l.entsize * l.shnum)
    requires SectionRange(sht, l.entsize, l.strndx, maxSize).Some?
    requires strtab == SectionBytes(data, sht, l.entsize, l.strndx, maxSize)
    requires found.Some? ==> FirstBuildIdSection(sht, strtab, l, found.value)
    requires found.None? ==> forall i: nat :: !FirstBuildIdSection(sht, strtab, l, i)
    ensures forall i: nat, notes: Bytes :: NotesAt(data, maxSize, i, notes) ==> found == Some(i)
    ensures found.Some? && SectionRange(sht, l.entsize, found.value, maxSize).Some? ==>
      NotesAt(data, maxSize, found.value, SectionBytes(data, sht, l.entsize, found.value, maxSize))
    ensures forall i: nat, notes: Bytes :: NotesAt(data, maxSize, i, notes) ==>
      SectionRange(sht, l.entsize, i, maxSize).Some? &&
      notes == SectionBytes(data, sht, l.entsize, i, maxSize)
  {
    forall i: nat, notes: Bytes | NotesAt(data, maxSize, i, notes) ensures found == Some(i) {
      FirstIsUnique(sht, strtab, l, i, found.value);
    }
  }

  /** When the first build-id section holds encoded notes, the image carries exactly their first GNU build-id. */
  lemma CarriesEncodedNotes(data: Bytes, maxSize: nat, i: nat, notes: seq<Note>, desc: Bytes)
    requires forall k :: 0 <= k < |notes| ==> Encodable(notes[k])
    requires NotesAt(data, maxSize, i, Encode(notes))
    ensures Carries(data, maxSize, desc) <==> FirstBuildId(notes) == Some(desc)
  {
    hide NotesAt, Encode, Encodable, FirstBuildId, Scan;
    ScanEncoded(notes, []);
    assert Encode(notes) + [] == Encode(notes);
    forall j: nat, other: Bytes | NotesAt(data, maxSize, j, other) ensures other == Encode(notes) {
      NotesUnique(data, maxSize, i, Encode(notes), j, other);
    }
  }

  /** Only a 64-bit little-endian ELF object with a whole header and a section header table carries a build-id. */
  lemma OnlyElfCarries(data: Bytes, maxSize: nat, desc: Bytes)
    requires Carries(data, maxSize, desc)
    ensures |data| >= 64 && data[..6] == [0x7f, 0x45, 0x4c, 0x46, 2, 1]
    ensures FromLE(data[0x28..0x30]) > 0 && FromLE(data[0x3A..0x3C]) >= 64 && FromLE(data[0x3C..0x3E]) > 0
  {
    hide SectionRange, FirstBuildIdSection, Scan, FromLE;
    var i: nat, notes: Bytes :| NotesAt(data, maxSize, i, notes) && Scan(notes) == Some(desc);
    var header := GetRange(data, 0, 64);
    assert Elf64Little(header) && header == data[..64];
    assert data[..4] == header[..4] && data[4] == header[4] && data[5] == header[5];
    assert header[0x28..0x30] == data[0x28..0x30] && header[0x3A..0x3C] == data[0x3A..0x3C];
    assert header[0x3C..0x3E] == data[0x3C..0x3E];
  }

  lemma NotesUnique(data: Bytes, maxSize: nat, i: nat, notes: Bytes, j: nat, other: Bytes)
    requires NotesAt(data, maxSize, i, notes) && NotesAt(data, maxSize, j, other)
    ensures i == j && notes == other
  {
    hide FirstBuildIdSection, SectionRange, GetRange;
    var l := LayoutOf(GetRange(data, 0, 64));
    var sht := GetRange(data, l.shoff, l.entsize * l.shnum);
    var names := SectionRange(sht, l.entsize, l.strndx, maxSize).value;
    FirstIsUnique(sht, GetRange(data, names.0, names.1), l, i, j);
  }
}
