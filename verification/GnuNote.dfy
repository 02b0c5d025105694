/**
 * GNU build-id notes: the byte format of a note section (System V ABI, chapter 5, "Note Section"), and the loop that
 * looks for the build-id in it.
 */
module GnuNote {
  import opened Prelude

  type byte = x: int | 0 <= x < 256
  type Bytes = seq<byte>

  // ---------- little-endian integers ----------

  function FromLE(b: Bytes): nat {
    if b == [] then 0 else b[0] + 256 * FromLE(b[1..])
  }

  function ToLE(n: nat, width: nat): (b: Bytes)
    ensures |b| == width
  {
    if width == 0 then [] else [n % 256] + ToLE(n / 256, width - 1)
  }

  function Power256(k: nat): nat {
    if k == 0 then 1 else 256 * Power256(k - 1)
  }

  lemma {:induction false} LERoundTrip(n: nat, width: nat)
    requires n < Power256(width)
    ensures FromLE(ToLE(n, width)) == n
  {
    if width > 0 {
      LERoundTrip(n / 256, width - 1);
    }
  }

  const U32 := 0x1_0000_0000

  lemma U32RoundTrip(n: nat)
    requires n < U32
    ensures FromLE(ToLE(n, 4)) == n
  {
    assert Power256(4) == 256 * Power256(3) == 256 * 256 * Power256(2) == 256 * 256 * 256 * Power256(1) == U32;
    LERoundTrip(n, 4);
  }

  // ---------- hexadecimal text ----------

  const Digits := "0123456789abcdef"

  function Hex(b: Bytes): (s: string)
    ensures |s| == 2 * |b|
  {
    if b == [] then "" else [Digits[b[0] / 16], Digits[b[0] % 16]] + Hex(b[1..])
  }

  function DigitValue(c: char): int {
    if '0' <= c <= '9' then c as int - '0' as int else c as int - 'a' as int + 10
  }

  function UnHex(s: string): seq<int> {
    if |s| < 2 then [] else [16 * DigitValue(s[0]) + DigitValue(s[1])] + UnHex(s[2..])
  }

  lemma DigitRoundTrip(n: int)
    requires 0 <= n < 16
    ensures DigitValue(Digits[n]) == n
  {
  }

  /** The hexadecimal text determines the descriptor. */
  lemma {:induction false} HexRoundTrip(b: Bytes)
    ensures UnHex(Hex(b)) == b
  {
    if b != [] {
      DigitRoundTrip(b[0] / 16);
      DigitRoundTrip(b[0] % 16);
      HexRoundTrip(b[1..]);
      assert Hex(b)[2..] == Hex(b[1..]);
      assert b == [b[0]] + b[1..];
    }
  }

  // ---------- the note format ----------

  datatype Note = Note(name: Bytes, kind: nat, desc: Bytes)

  predicate Encodable(n: Note) {
    |n.name| < U32 && |n.desc| < U32 && n.kind < U32
  }

  /** Bytes up to the next multiple of four. */
  function Pad(size: nat): (p: nat)
    ensures p < 4 && (size + p) % 4 == 0
  {
    (4 - size % 4) % 4
  }

  function Zeros(n: nat): (b: Bytes)
    ensures |b| == n
  {
    seq(n, _ => 0)
  }

  function EncodeNote(n: Note): Bytes {
    ToLE(|n.name|, 4) + ToLE(|n.desc|, 4) + ToLE(n.kind, 4) + n.name + Zeros(Pad(|n.name|)) + n.desc + Zeros(Pad(|n.desc|))
  }

  function Encode(notes: seq<Note>): Bytes {
    if notes == [] then [] else EncodeNote(notes[0]) + Encode(notes[1..])
  }

  const GnuName: Bytes := [71, 78, 85]
  const BuildIdKind := 3

  function StripNuls(b: Bytes): Bytes {
    if b != [] && b[|b| - 1] == 0 then StripNuls(b[..|b| - 1]) else b
  }

  predicate IsBuildId(n: Note) {
    n.kind == BuildIdKind && StripNuls(n.name) == GnuName
  }

  lemma {:induction false} StrippedNuls(b: Bytes) returns (k: nat)
    ensures b == StripNuls(b) + Zeros(k)
    decreases |b|
  {
    k := 0;
    if b != [] && b[|b| - 1] == 0 {
      var n := StrippedNuls(b[..|b| - 1]);
      k := n + 1;
    }
  }

  lemma {:induction false} StripPadded(b: Bytes, k: nat)
    ensures StripNuls(b + Zeros(k)) == StripNuls(b)
    decreases k
  {
    if k == 0 {
      assert b + Zeros(0) == b;
    } else {
      StripPadded(b, k - 1);
      assert (b + Zeros(k))[..|b| + k - 1] == b + Zeros(k - 1);
    }
  }

  /** A build-id note has type 3 and the name "GNU", followed by any number of NULs. */
  lemma BuildIdExactly(n: Note)
    ensures IsBuildId(n) <==> n.kind == 3 && exists k: nat :: n.name == [0x47, 0x4E, 0x55] + Zeros(k)
  {
    if IsBuildId(n) {
      var k := StrippedNuls(n.name);
    } else if k: nat :| n.name == GnuName + Zeros(k) {
      StripPadded(GnuName, k);
    }
  }

  /** The descriptor of the first GNU build-id note. */
  function FirstBuildId(notes: seq<Note>): Option<Bytes> {
    if notes == [] then None
    else if IsBuildId(notes[0]) then Some(notes[0].desc)
    else FirstBuildId(notes[1..])
  }

  // ---------- reading ----------

  /** The note at the front of `b` and where the next one starts; nothing when header or body run past the end. */
  function Front(b: Bytes): Option<(Note, nat)> {
    if |b| < 12 then None
    else
      var namesz, descsz, kind := FromLE(b[0..4]), FromLE(b[4..8]), FromLE(b[8..12]);
      var descStart := 12 + namesz + Pad(namesz);
      if descStart + descsz > |b| then None
      else Some((Note(b[12..12 + namesz], kind, b[descStart..descStart + descsz]), descStart + descsz + Pad(descsz)))
  }

  /** The first build-id found by walking note after note. */
  function Scan(b: Bytes): Option<Bytes>
    decreases |b|
  {
    match Front(b)
    case None => None
    case Some((note, next)) =>
      if IsBuildId(note) then Some(note.desc) else if next <= |b| then Scan(b[next..]) else None
  }

  /** What the loop reads at `offset` is the front note of the bytes from there on. */
  lemma FrontAt(notes: Bytes, offset: nat)
    requires offset + 12 <= |notes|
    ensures
      var namesz := FromLE(notes[offset..offset + 4]);
      var descsz := FromLE(notes[offset + 4..offset + 8]);
      var descStart := offset + 12 + namesz + Pad(namesz);
      Front(notes[offset..]) ==
        if descStart + descsz > |notes| then None
        else Some((Note(notes[offset + 12..offset + 12 + namesz], FromLE(notes[offset + 8..offset + 12]), notes[descStart..descStart + descsz]),
                   descStart + descsz + Pad(descsz) - offset))
  {
    var rest := notes[offset..];
    assert rest[0..4] == notes[offset..offset + 4];
    assert rest[4..8] == notes[offset + 4..offset + 8];
    assert rest[8..12] == notes[offset + 8..offset + 12];
    var namesz, descsz := FromLE(rest[0..4]), FromLE(rest[4..8]);
    var descStart := 12 + namesz + Pad(namesz);
    if descStart + descsz <= |rest| {
      assert rest[12..12 + namesz] == notes[offset + 12..offset + 12 + namesz];
      assert rest[descStart..descStart + descsz] == notes[offset + descStart..offset + descStart + descsz];
    }
  }

  /** Every turn moves forward by at least a header, so the source's guard against standing still never fires. */
  method ParseGnuBuildId(notes: Bytes) returns (r: Result<string, string>)
    ensures r == match Scan(notes) case Some(desc) => Ok(Hex(desc)) case None => Err("build_failure")
  {
    hide FromLE, StripNuls, Hex, Pad;
    var offset, end := 0, |notes|;
    assert notes[0..] == notes;
    while offset + 12 <= end
      invariant Scan(notes) == if offset <= end then Scan(notes[offset..]) else None
      decreases end - offset
    {
      FrontAt(notes, offset);
      var namesz := FromLE(notes[offset..offset + 4]);
      var descsz := FromLE(notes[offset + 4..offset + 8]);
      var kind := FromLE(notes[offset + 8..offset + 12]);
      var nameStart := offset + 12;
      var nameEnd := nameStart + namesz;
      var descStart := nameEnd + Pad(namesz);
      var descEnd := descStart + descsz;
      if descEnd > end {
        return Err("build_failure");
      }
      var name := StripNuls(notes[nameStart..nameEnd]);
      if kind == BuildIdKind && name == GnuName {
        return Ok(Hex(notes[descStart..descEnd]));
      }
      var nextOffset := descEnd + Pad(descsz);
      if nextOffset <= end {
        assert notes[offset..][nextOffset - offset..] == notes[nextOffset..];
      }
      offset := nextOffset;
    }
    return Err("build_failure");
  }

  /** Reading undoes encoding, whatever bytes follow. */
  lemma FrontOfEncoded(n: Note, tail: Bytes)
    requires Encodable(n)
    ensures Front(EncodeNote(n) + tail) == Some((n, |EncodeNote(n)|))
  {
    var b := EncodeNote(n) + tail;
    U32RoundTrip(|n.name|);
    U32RoundTrip(|n.desc|);
    U32RoundTrip(n.kind);
    hide ToLE, FromLE, Zeros, Pad;
    assert b[0..4] == ToLE(|n.name|, 4);
    assert b[4..8] == ToLE(|n.desc|, 4);
    assert b[8..12] == ToLE(n.kind, 4);
    assert b[12..12 + |n.name|] == n.name;
    var descStart := 12 + |n.name| + Pad(|n.name|);
    assert b[descStart..descStart + |n.desc|] == n.desc;
  }

  /**
   * On every sequence of encoded notes, with a stray tail too short for a note, the first build-id is what is found.
   */
  lemma {:induction false} ScanEncoded(notes: seq<Note>, tail: Bytes)
    requires forall i :: 0 <= i < |notes| ==> Encodable(notes[i])
    requires |tail| < 12
    ensures Scan(Encode(notes) + tail) == FirstBuildId(notes)
  {
    if notes == [] {
      assert Encode(notes) + tail == tail;
    } else {
      var rest := Encode(notes[1..]) + tail;
      assert Encode(notes) + tail == EncodeNote(notes[0]) + rest;
      FrontOfEncoded(notes[0], rest);
      assert (EncodeNote(notes[0]) + rest)[|EncodeNote(notes[0])|..] == rest;
      ScanEncoded(notes[1..], tail);
    }
  }

  /** `notes[i]` is a build-id and none before it is. */
  ghost predicate FirstAt(notes: seq<Note>, i: nat) {
    i < |notes| && IsBuildId(notes[i]) && forall j :: 0 <= j < i ==> !IsBuildId(notes[j])
  }

  lemma {:induction false} FirstBuildIdIsFirst(notes: seq<Note>)
    ensures FirstBuildId(notes).None? <==> forall i :: 0 <= i < |notes| ==> !IsBuildId(notes[i])
    ensures FirstBuildId(notes).Some? ==>
      exists i: nat :: FirstAt(notes, i) && notes[i].desc == FirstBuildId(notes).value
  {
    if notes == [] {
    } else if IsBuildId(notes[0]) {
      assert FirstAt(notes, 0);
    } else {
      var rest := notes[1..];
      FirstBuildIdIsFirst(rest);
      assert forall j :: 0 < j < |notes| ==> notes[j] == rest[j - 1];
      if FirstBuildId(notes).Some? {
        var i: nat :| FirstAt(rest, i) && rest[i].desc == FirstBuildId(rest).value;
        assert FirstAt(notes, i + 1);
      } else {
        assert forall i :: 0 <= i < |rest| ==> !IsBuildId(rest[i]);
      }
    }
  }
}
