/** The bytes on a formatted disk, one by one, and the bytes that are looked at on any disk. */
module DiskBytes {
  import opened Bits
  import opened Bytes
  import opened Sectors
  import opened PartInfos
  import opened GptLayout
  import opened MbrLayout
  import opened GptImage
  import opened ScanSpec
  import opened Crc32s
  import opened GptFacts
  import GptFormat
  import GptRoundTrip
  import MbrFormat

  // "EFI PART"
  const EFI_PART: seq<byte> := [69, 70, 73, 32, 80, 65, 82, 84]

  /** Bytes at to at + n - 1 are those of the number x, the lowest first. */
  ghost predicate Field(s: seq<byte>, at: nat, n: nat, x: nat) {
    at + n <= |s| && forall i | 0 <= i < n :: s[at + i] == (x / Pow256(i)) % 256
  }

  lemma Powers()
    ensures Pow256(0) == 1 && Pow256(1) == 0x100 && Pow256(2) == 0x1_0000 && Pow256(3) == 0x100_0000
    ensures Pow256(4) == 0x1_0000_0000 && Pow256(5) == 0x100_0000_0000 && Pow256(6) == 0x1_0000_0000_0000
    ensures Pow256(7) == 0x100_0000_0000_0000
  {
  }

  lemma FieldAt(s: seq<byte>, at: nat, n: nat, x: nat)
    requires at + n <= |s| && s[at..at + n] == LE(n, x)
    ensures Field(s, at, n, x)
  {
    forall i | 0 <= i < n ensures s[at + i] == (x / Pow256(i)) % 256 {
      LEByte(n, x, i);
      assert s[at..at + n][i] == s[at + i];
    }
  }

  /** What is read from a field is the number of its bytes. */
  lemma FieldRead(s: seq<byte>, at: nat, n: nat)
    requires at + n <= |s|
    ensures Field(s, at, n, FromLE(s[at..at + n]))
  {
    var f := s[at..at + n];
    forall i | 0 <= i < n ensures s[at + i] == (FromLE(f) / Pow256(i)) % 256 {
      FromLEByte(f, i);
      assert f[i] == s[at + i];
    }
  }

  // Headers

  lemma Magic()
    ensures LE(8, SIGNATURE) == EFI_PART && LE(4, REVISION) == [0, 0, 1, 0] && LE(4, HEADER_SIZE) == [92, 0, 0, 0]
  {
    assert SIGNATURE / 256 / 256 / 256 / 256 == 0x5452_4150;
  }

  /** All 92 bytes of a header, whatever follows them. */
  ghost predicate HeaderBytesAre(s: seq<byte>, h: Header) {
    && |s| >= HEADER_SIZE
    && s[0..8] == EFI_PART && s[8..12] == [0, 0, 1, 0] && s[12..16] == [92, 0, 0, 0]
    && Field(s, 16, 4, h.crc) && s[20..24] == [0, 0, 0, 0]
    && Field(s, 24, 8, h.myLba) && Field(s, 32, 8, h.alternateLba)
    && Field(s, 40, 8, h.firstUsable) && Field(s, 48, 8, h.lastUsable)
    && s[56..72] == h.diskGuid
    && Field(s, 72, 8, h.entryLba) && Field(s, 80, 4, h.numEntries) && Field(s, 84, 4, h.entrySize)
    && Field(s, 88, 4, h.arrayCrc)
  }

  lemma HeaderStart(h: Header, rest: seq<byte>)
    ensures var s := HeaderBytes(h) + rest;
            s[0..8] == EFI_PART && s[8..12] == [0, 0, 1, 0] && s[12..16] == [92, 0, 0, 0] && Field(s, 16, 4, h.crc)
  {
    var s := HeaderBytes(h) + rest;
    HeaderSplit(h, rest);
    SplitHead(s, LE(8, SIGNATURE), LE(4, REVISION), LE(4, HEADER_SIZE), LE(4, h.crc),
              HeaderPlace(h) + HeaderTable(h) + rest);
    Magic();
    FieldAt(s, 16, 4, h.crc);
  }

  lemma HeaderMiddle(h: Header, rest: seq<byte>)
    ensures var s := HeaderBytes(h) + rest;
            && s[20..24] == [0, 0, 0, 0] && Field(s, 24, 8, h.myLba) && Field(s, 32, 8, h.alternateLba)
            && Field(s, 40, 8, h.firstUsable) && Field(s, 48, 8, h.lastUsable) && s[56..72] == h.diskGuid
  {
    var s := HeaderBytes(h) + rest;
    PlaceSplit(h, rest);
    SplitPlace(s, HeaderHead() + LE(4, h.crc), Zeros(4), LE(8, h.myLba), LE(8, h.alternateLba),
               LE(8, h.firstUsable), LE(8, h.lastUsable), h.diskGuid, HeaderTable(h) + rest);
    FieldAt(s, 24, 8, h.myLba);
    FieldAt(s, 32, 8, h.alternateLba);
    FieldAt(s, 40, 8, h.firstUsable);
    FieldAt(s, 48, 8, h.lastUsable);
  }

  lemma HeaderEnd(h: Header, rest: seq<byte>)
    ensures var s := HeaderBytes(h) + rest;
            && Field(s, 72, 8, h.entryLba) && Field(s, 80, 4, h.numEntries) && Field(s, 84, 4, h.entrySize)
            && Field(s, 88, 4, h.arrayCrc)
  {
    var s := HeaderBytes(h) + rest;
    SplitTail(s, HeaderHead() + LE(4, h.crc) + HeaderPlace(h),
              LE(8, h.entryLba), LE(4, h.numEntries), LE(4, h.entrySize), LE(4, h.arrayCrc), rest);
    FieldAt(s, 72, 8, h.entryLba);
    FieldAt(s, 80, 4, h.numEntries);
    FieldAt(s, 84, 4, h.entrySize);
    FieldAt(s, 88, 4, h.arrayCrc);
  }

  lemma HeaderBytewise(h: Header, rest: seq<byte>)
    ensures HeaderBytesAre(HeaderBytes(h) + rest, h)
  {
    HeaderStart(h, rest);
    HeaderMiddle(h, rest);
    HeaderEnd(h, rest);
  }

  // Entries

  /** Character i of a name is stored: it is before the first NUL, and before the 36th. */
  predicate Stored(name: seq<byte>, i: nat) {
    i < NAME_LENGTH && i < |name| && forall j | 0 <= j <= i :: name[j] != 0
  }

  /** The two bytes of a character in an entry. */
  predicate CharacterIs(e: seq<byte>, name: seq<byte>, i: nat, signedChar: bool)
    requires |e| == ENTRY_SIZE && i < NAME_LENGTH
  {
    && e[56 + 2 * i] == (if Stored(name, i) then name[i] else 0)
    && e[57 + 2 * i] == (if Stored(name, i) && name[i] >= 128 && signedChar then 255 else 0)
  }

  /** The last sector of a partition: the one before the sector its end is in. */
  function LastOf(p: Part, shift: nat): nat {
    (Shift((p.offset + p.size) % WORD, shift) - 1) % WORD
  }

  /** All 128 bytes of an entry. */
  ghost predicate EntryBytesAre(e: seq<byte>, p: Part, shift: nat, signedChar: bool) {
    && |e| == ENTRY_SIZE
    && e[0..16] == p.info.typeGuid && e[16..32] == p.info.uniqueGuid
    && Field(e, 32, 8, Shift(p.offset, shift)) && Field(e, 40, 8, LastOf(p, shift)) && e[48..56] == Zeros(8)
    && (forall i | 0 <= i < NAME_LENGTH :: CharacterIs(e, p.info.name, i, signedChar))
  }

  lemma {:induction false} CutAt(name: seq<byte>, room: nat, i: nat)
    requires i < room <= NAME_LENGTH
    ensures i < |Cut(name, room)| <==> i < |name| && forall j | 0 <= j <= i :: name[j] != 0
    ensures i < |Cut(name, room)| ==> Cut(name, room)[i] == name[i]
    decreases room
  {
    if name != [] && name[0] != 0 && i > 0 {
      CutAt(name[1..], room - 1, i - 1);
      if i < |name| && forall j | 0 <= j <= i :: name[j] != 0 {
        forall j | 0 <= j <= i - 1 ensures j < |name[1..]| && name[1..][j] != 0 {
          assert name[1..][j] == name[j + 1];
        }
      }
      if i < |Cut(name, room)| {
        forall j | 0 <= j <= i ensures j < |name| && name[j] != 0 {
          assert j > 0 ==> name[1..][j - 1] == name[j];
        }
      }
    }
  }

  lemma {:induction false} UnicodeAt(name: seq<byte>, room: nat, signedChar: bool, i: nat)
    requires |name| <= room && i < room
    ensures var u := Unicode(name, room, signedChar);
            && u[2 * i] == (if i < |name| then name[i] else 0)
            && u[2 * i + 1] == if i < |name| && name[i] >= 128 && signedChar then 255 else 0
    decreases room
  {
    if name != [] && i > 0 {
      UnicodeAt(name[1..], room - 1, signedChar, i - 1);
      var rest := Unicode(name[1..], room - 1, signedChar);
      assert Unicode(name, room, signedChar) == Wide(name[0], signedChar) + rest;
    }
  }

  lemma EntryStart(p: Part, shift: nat, signedChar: bool)
    ensures var e := EntryBytes(p, shift, signedChar);
            && e[0..16] == p.info.typeGuid && e[16..32] == p.info.uniqueGuid && e[48..56] == Zeros(8)
            && Field(e, 32, 8, Shift(p.offset, shift)) && Field(e, 40, 8, LastOf(p, shift))
            && e[56..128] == Unicode(Cut(p.info.name, NAME_LENGTH), NAME_LENGTH, signedChar)
  {
    var e := EntryBytes(p, shift, signedChar);
    SplitFive(p.info.typeGuid, p.info.uniqueGuid, LE(8, StartLba(p, shift)), LE(8, EndLba(p, shift)), Zeros(8),
              Unicode(Cut(p.info.name, NAME_LENGTH), NAME_LENGTH, signedChar));
    FieldAt(e, 32, 8, StartLba(p, shift));
    FieldAt(e, 40, 8, EndLba(p, shift));
    U64IsRemainder(p.offset + p.size);
    U64IsRemainder(Shift(U64(p.offset + p.size), shift) - 1);
  }

  lemma EntryBytewise(p: Part, shift: nat, signedChar: bool)
    ensures EntryBytesAre(EntryBytes(p, shift, signedChar), p, shift, signedChar)
  {
    var e, name := EntryBytes(p, shift, signedChar), p.info.name;
    EntryStart(p, shift, signedChar);
    var u := Unicode(Cut(name, NAME_LENGTH), NAME_LENGTH, signedChar);
    forall i | 0 <= i < NAME_LENGTH ensures CharacterIs(e, name, i, signedChar) {
      CutAt(name, NAME_LENGTH, i);
      UnicodeAt(Cut(name, NAME_LENGTH), NAME_LENGTH, signedChar, i);
      assert e[56..128][2 * i] == e[56 + 2 * i] && e[56..128][2 * i + 1] == e[57 + 2 * i];
    }
  }

  // Boot records

  /** The 16 bytes at at are those of a record. */
  ghost predicate RecordBytesAre(s: seq<byte>, at: nat, rec: Record) {
    && at + 16 <= |s|
    && s[at] == rec.boot && s[at + 1] == rec.first.head && s[at + 2] == rec.first.sector
    && s[at + 3] == rec.first.track && s[at + 4] == rec.osType && s[at + 5] == rec.last.head
    && s[at + 6] == rec.last.sector && s[at + 7] == rec.last.track
    && Field(s, at + 8, 4, rec.start) && Field(s, at + 12, 4, rec.size)
  }

  ghost predicate AllZero(s: seq<byte>, from: nat, to: nat) {
    to <= |s| && forall k | from <= k < to :: s[k] == 0
  }

  ghost predicate SlotBytesAre(s: seq<byte>, recs: seq<Record>, i: nat) {
    if i < |recs| then RecordBytesAre(s, 446 + 16 * i, recs[i]) else AllZero(s, 446 + 16 * i, 446 + 16 * i + 16)
  }

  /** All 512 bytes of a boot record: no code, four records, 55 AA. */
  ghost predicate MbrBytesAre(s: seq<byte>, recs: seq<Record>) {
    && |s| >= 512 && AllZero(s, 0, 446) && s[510] == 0x55 && s[511] == 0xAA
    && (forall i | 0 <= i < 4 :: SlotBytesAre(s, recs, i))
  }

  lemma RecordBytewise(s: seq<byte>, at: nat, rec: Record)
    requires at + 16 <= |s| && s[at..at + 16] == RecordBytes(rec)
    ensures RecordBytesAre(s, at, rec)
  {
    RecordFields(rec);
    RecordBytesAt(rec);
    BytesInside(s, at, RecordBytes(rec));
    FieldsInside(s, at, RecordBytes(rec));
    FieldAt(s, at + 8, 4, rec.start);
    FieldAt(s, at + 12, 4, rec.size);
  }

  lemma ZerosInside(s: seq<byte>, at: nat, n: nat)
    requires at + n <= |s| && s[at..at + n] == Zeros(n)
    ensures AllZero(s, at, at + n)
  {
    forall k | at <= k < at + n ensures s[k] == 0 {
      assert s[at..at + n][k - at] == s[k];
    }
  }

  lemma MbrEnds(recs: seq<Record>, rest: seq<byte>)
    ensures var s := MbrBytes(recs) + rest; AllZero(s, 0, 446) && s[510] == 0x55 && s[511] == 0xAA
  {
    var s := MbrBytes(recs) + rest;
    MbrParts(recs, rest, 0);
    assert LE(2, MBR_SIGNATURE) == [0x55, 0xAA];
    assert s[510..512][0] == s[510] && s[510..512][1] == s[511];
  }

  lemma MbrBytewise(recs: seq<Record>, rest: seq<byte>)
    ensures MbrBytesAre(MbrBytes(recs) + rest, recs)
  {
    var s := MbrBytes(recs) + rest;
    MbrEnds(recs, rest);
    forall i | 0 <= i < 4 ensures SlotBytesAre(s, recs, i) {
      MbrParts(recs, rest, i);
      if i < |recs| {
        RecordBytewise(s, 446 + 16 * i, recs[i]);
      } else {
        ZerosInside(s, 446 + 16 * i, 16);
      }
    }
  }

  // What is looked at on a disk

  lemma {:induction false} FieldUnique(s: seq<byte>, t: seq<byte>)
    requires |s| == |t| && FromLE(s) == FromLE(t)
    ensures s == t
  {
    forall i | 0 <= i < |s| ensures s[i] == t[i] {
      FromLEByte(s, i);
      FromLEByte(t, i);
    }
  }

  /** The signature of a boot record, and the type that announces a GPT. */
  lemma BootBytes(s: seq<byte>)
    requires |s| >= MBR_SIZE
    ensures Signed(s) <==> s[510] == 0x55 && s[511] == 0xAA
    ensures Protective(s) <==> s[450] == 0xEE
  {
    var f := s[510..512];
    FieldValues(0x55, 0xAA, 0, 0);
    if FromLE(f) == MBR_SIGNATURE {
      FieldUnique(f, [0x55, 0xAA]);
    }
    assert f == [s[510], s[511]];
  }

  /** What is read of record i of a boot record. */
  lemma SeenBytes(s: seq<byte>, i: nat)
    requires |s| >= MBR_SIZE && i < 4
    ensures var seen := SeenAt(s, i);
            && seen.osType == s[446 + 16 * i + 4] && Field(s, 446 + 16 * i + 8, 4, seen.start)
            && Field(s, 446 + 16 * i + 12, 4, seen.size)
  {
    FieldRead(s, 446 + 16 * i + 8, 4);
    FieldRead(s, 446 + 16 * i + 12, 4);
  }

  /** What is read of a header besides its checks: where the table is, and how many entries it has. */
  lemma HeaderReads(s: seq<byte>)
    requires |s| >= HEADER_SIZE
    ensures Field(s, 72, 8, EntryLbaOf(s)) && Field(s, 80, 4, NumEntriesOf(s))
  {
    FieldRead(s, 72, 8);
    FieldRead(s, 80, 4);
  }

  /** Character i of the name in an entry. */
  function LowOf(e: seq<byte>, i: nat): byte
    requires |e| == ENTRY_SIZE && i < NAME_LENGTH
  {
    e[56 + 2 * i]
  }

  predicate Blank(e: seq<byte>, i: nat)
    requires |e| == ENTRY_SIZE && i < NAME_LENGTH
  {
    e[56 + 2 * i] == 0 && e[57 + 2 * i] == 0
  }

  /** The low bytes of the characters before the first zero one, or of all 36. */
  ghost predicate NameIn(e: seq<byte>, name: seq<byte>)
    requires |e| == ENTRY_SIZE
  {
    && |name| <= NAME_LENGTH && (|name| < NAME_LENGTH ==> Blank(e, |name|))
    && forall i | 0 <= i < |name| :: name[i] == LowOf(e, i) && !Blank(e, i)
  }

  lemma {:induction false} NameRead(s: seq<byte>, n: nat)
    requires |s| == 2 * n
    ensures var name := FromUnicode(s);
            && |name| <= n && (|name| < n ==> s[2 * |name|] == 0 && s[2 * |name| + 1] == 0)
            && forall i | 0 <= i < |name| :: name[i] == s[2 * i] && (s[2 * i] != 0 || s[2 * i + 1] != 0)
    decreases n
  {
    if n > 0 && (s[0] != 0 || s[1] != 0) {
      NameRead(s[2..], n - 1);
      var name, rest := FromUnicode(s), FromUnicode(s[2..]);
      assert name == [s[0]] + rest;
      forall i | 0 <= i < |name| ensures name[i] == s[2 * i] && (s[2 * i] != 0 || s[2 * i + 1] != 0) {
        if i > 0 {
          assert name[i] == rest[i - 1] && s[2..][2 * (i - 1)] == s[2 * i] && s[2..][2 * (i - 1) + 1] == s[2 * i + 1];
        }
      }
    }
  }

  /** What is read of an entry. */
  lemma EntryReads(e: seq<byte>)
    requires |e| == ENTRY_SIZE
    ensures var x := ReadEntry(e);
            && x.typeGuid == e[0..16] && x.uniqueGuid == e[16..32] && NameIn(e, x.name)
            && Field(e, 32, 8, x.start) && Field(e, 40, 8, x.end)
  {
    FieldRead(e, 32, 8);
    FieldRead(e, 40, 8);
    var u, name := e[56..128], ReadEntry(e).name;
    NameRead(u, NAME_LENGTH);
    forall i | 0 <= i < NAME_LENGTH ensures u[2 * i] == e[56 + 2 * i] && u[2 * i + 1] == e[57 + 2 * i] {
    }
  }

  // "EXFAT   "
  const EXFAT: seq<byte> := [69, 88, 70, 65, 84, 32, 32, 32]

  lemma ExfatMagic()
    ensures FromLE(EXFAT) == FSTYPE_EXFAT
  {
    assert EXFAT == LE(8, FSTYPE_EXFAT) by {
      assert FSTYPE_EXFAT / 256 / 256 / 256 / 256 == 0x2020_2054;
    }
    Word64RoundTrip(FSTYPE_EXFAT);
  }

  /** What a sector must look like to be taken for the first one of a volume. */
  lemma VolumeBytes(s: seq<byte>)
    requires |s| >= MBR_SIZE
    ensures Plausible(s) <==>
            (s[510] == 0x55 && s[511] == 0xAA && s[3..11] == EXFAT) || s[0] == 0xEB || s[0] == 0xE9 || s[0] == 0xE8
  {
    BootBytes(s);
    ExfatMagic();
    if FromLE(s[3..11]) == FSTYPE_EXFAT {
      FieldUnique(s[3..11], EXFAT);
    }
  }

  // Formatted disks

  /** Entry k of the table at sector lba, on a disk with per entries in a sector. */
  function CellAt(v: seq<Sector>, lba: nat, k: nat, per: nat): seq<byte>
    requires per > 0 && lba + k / per < |v| && (k % per) * ENTRY_SIZE + ENTRY_SIZE <= |v[lba + k / per]|
  {
    v[lba + k / per][(k % per) * ENTRY_SIZE..(k % per) * ENTRY_SIZE + ENTRY_SIZE]
  }

  ghost predicate CellIs(v: seq<Sector>, lba: nat, k: nat, per: nat, parts: seq<Part>, shift: nat, signedChar: bool) {
    && per > 0 && lba + k / per < |v| && (k % per) * ENTRY_SIZE + ENTRY_SIZE <= |v[lba + k / per]|
    && if k < |parts| then EntryBytesAre(CellAt(v, lba, k, per), parts[k], shift, signedChar)
       else CellAt(v, lba, k, per) == Zeros(ENTRY_SIZE)
  }

  /** The table at lba: 128 entries, per of them in a sector, those that are not used zero. */
  ghost predicate TableIs(v: seq<Sector>, lba: nat, per: nat, parts: seq<Part>, shift: nat, signedChar: bool) {
    per * ENTRY_SIZE == Pow2(shift) && forall k | 0 <= k < ITEMS :: CellIs(v, lba, k, per, parts, shift, signedChar)
  }

  /** A sector with a header whose checksum is that of its 92 bytes with the checksum left out. */
  ghost predicate HeaderSectorIs(s: Sector, h: Header) {
    |s| >= HEADER_SIZE && HeaderBytesAre(s, h.(crc := Checksum(Patch(s, 16, Zeros(4))[..92])))
  }

  lemma SealedBytewise(h: Header, rest: seq<byte>)
    ensures var s := HeaderBytes(Sealed(h)) + rest;
            HeaderBytesAre(s, h.(crc := Checksum(Patch(s, 16, Zeros(4))[..92])))
  {
    var s, plain := HeaderBytes(Sealed(h)) + rest, HeaderBytes(h.(crc := 0));
    HeaderBytewise(Sealed(h), rest);
    CrcCleared(Sealed(h), rest);
    assert Sealed(h).(crc := 0) == h.(crc := 0);
    assert (plain + rest)[..92] == plain;
  }

  /** Both headers, with tables of n sectors at sector 2 and at backup; the last sector holds the second header. */
  ghost predicate GptHeadersAre(v: seq<Sector>, n: nat, backup: nat, guid: Guid) {
    && |v| == backup + n + 1 && 2 + n <= backup
    && var crc := Checksum(Flat(v[2..2 + n]));
       && HeaderSectorIs(v[1], Header(0, 1, |v| - 1, 2 + n, backup - 1, guid, 2, 128, 128, crc))
       && HeaderSectorIs(v[|v| - 1], Header(0, |v| - 1, 1, 2 + n, backup - 1, guid, backup, 128, 128, crc))
  }

  /** What was left in the working buffer shows behind the headers and the boot record: the end of
      the last sector of the table. */
  ghost predicate LeftOversAre(v: seq<Sector>, n: nat)
    requires 0 < n && n + 1 < |v|
  {
    var last := v[1 + n];
    && |last| >= 512 && |v[1]| == |v[|v| - 1]| == |v[0]| == |last|
    && v[1][92..] == v[|v| - 1][92..] == last[92..] && v[0][512..] == last[512..]
  }

  /** The boot record of a drive with a GPT. */
  ghost predicate ProtectiveIs(s: Sector, drive: nat)
    requires drive > 0
  {
    MbrBytesAre(s, [Record(0, Chs(0, 2, 0), 0xEE, Chs(255, 255, 255), 1,
                           if drive - 1 < 0xFFFF_FFFF then drive - 1 else 0xFFFF_FFFF)])
  }

  /** What formatting a drive with a GPT leaves on it, byte by byte: the boot record, both headers, and both tables of
      n sectors, which are 16 KiB. */
  ghost predicate GptDiskIs(v: seq<Sector>, n: nat, backup: nat, per: nat, parts: seq<Part>, shift: nat, guid: Guid,
                            signedChar: bool) {
    && n * Pow2(shift) == 0x4000 && |v| == backup + n + 1 && 0 < n < backup && LeftOversAre(v, n)
    && ProtectiveIs(v[0], |v|) && GptHeadersAre(v, n, backup, guid)
    && TableIs(v, 2, per, parts, shift, signedChar) && TableIs(v, backup, per, parts, shift, signedChar)
  }

  lemma CellInTableOf(parts: seq<Part>, shift: nat, signedChar: bool, k: nat, per: nat, q: nat)
    requires Supported(shift) && k < ITEMS && per == PerSector(shift)
    requires per > 0 && q == k / per
    ensures q < TableSectors(shift)
    ensures var row, at := TableOf(parts, shift, signedChar)[q], (k % per) * ENTRY_SIZE;
            at + ENTRY_SIZE <= |row| && row[at..at + ENTRY_SIZE] == EntryCell(parts, k, shift, signedChar)
  {
    GeometryFacts(shift);
    var row, at := GptRoundTrip.CellInRow(Cells(parts, shift, signedChar), per, TableSectors(shift), k);
  }

  lemma CellOnDisk(v: seq<Sector>, lba: nat, t: seq<Sector>, k: nat, per: nat, parts: seq<Part>, shift: nat,
                   signedChar: bool)
    requires Supported(shift) && t == TableOf(parts, shift, signedChar) && k < ITEMS
    requires per == PerSector(shift) && per > 0
    requires lba + |t| <= |v| && v[lba..lba + |t|] == t
    ensures CellIs(v, lba, k, per, parts, shift, signedChar)
  {
    CellInTableOf(parts, shift, signedChar, k, per, k / per);
    CellInTable(v, lba, t, k, per, k / per, EntryCell(parts, k, shift, signedChar));
    if k < |parts| {
      EntryBytewise(parts[k], shift, signedChar);
    }
  }

  lemma CellInTable(v: seq<Sector>, lba: nat, t: seq<Sector>, k: nat, per: nat, q: nat, cell: seq<byte>)
    requires per > 0 && q == k / per < |t| && lba + |t| <= |v| && v[lba..lba + |t|] == t
    requires var at := (k % per) * ENTRY_SIZE; at + ENTRY_SIZE <= |t[q]| && t[q][at..at + ENTRY_SIZE] == cell
    ensures q >= 0 && (k % per) * ENTRY_SIZE + ENTRY_SIZE <= |v[lba + q]| && CellAt(v, lba, k, per) == cell
  {
    assert v[lba + q] == v[lba..lba + |t|][q];
  }

  lemma TableOnDisk(v: seq<Sector>, lba: nat, t: seq<Sector>, per: nat, parts: seq<Part>, shift: nat, signedChar: bool)
    requires Supported(shift) && t == TableOf(parts, shift, signedChar) && per == PerSector(shift)
    requires lba + |t| <= |v| && v[lba..lba + |t|] == t
    ensures TableIs(v, lba, per, parts, shift, signedChar)
  {
    GeometryFacts(shift);
    forall k | 0 <= k < ITEMS ensures CellIs(v, lba, k, per, parts, shift, signedChar) {
      CellOnDisk(v, lba, t, k, per, parts, shift, signedChar);
    }
  }

  lemma HeadersOnDisk(v0: seq<Sector>, v: seq<Sector>, t: seq<Sector>, backup: nat, mbr: Sector, h: Header,
                      rest: seq<byte>)
    requires Image(v0, v, t, backup, mbr, HeaderBytes(Sealed(h)) + rest, HeaderBytes(Sealed(Swapped(h, backup))) + rest)
    ensures HeaderSectorIs(v[1], h) && HeaderSectorIs(v[|v| - 1], Swapped(h, backup))
  {
    SealedBytewise(h, rest);
    SealedBytewise(Swapped(h, backup), rest);
  }

  lemma HeadersAre(v: seq<Sector>, n: nat, backup: nat, guid: Guid, h: Header)
    requires |v| == backup + n + 1 && 2 + n <= backup
    requires h == Header(0, 1, |v| - 1, 2 + n, backup - 1, guid, 2, ITEMS, ENTRY_SIZE, Checksum(Flat(v[2..2 + n])))
    requires HeaderSectorIs(v[1], h) && HeaderSectorIs(v[|v| - 1], Swapped(h, backup))
    ensures GptHeadersAre(v, n, backup, guid)
  {
    assert Swapped(h, backup) == Header(0, |v| - 1, 1, 2 + n, backup - 1, guid, backup, 128, 128, h.arrayCrc);
  }

  /** The identifier on the disk is the one that was given, or a new one if that was all zero. */
  lemma GuidOnDisk(given: Guid, generated: Guid)
    ensures GptFormat.DiskGuid(given, generated) == if forall i | 0 <= i < 16 :: given[i] == 0 then generated else given
  {
    if forall i | 0 <= i < 16 :: given[i] == 0 {
      assert given == Zeros(16);
    } else {
      assert given != Zeros(16);
    }
  }

  lemma BootOnDisk(s: Sector, drive: nat, rest: seq<byte>)
    requires drive > 0 && s == MbrBytes([ProtectiveRecord(drive)]) + rest
    ensures ProtectiveIs(s, drive)
  {
    MbrBytewise([ProtectiveRecord(drive)], rest);
  }

  lemma ImageHeaders(v0: seq<Sector>, v: seq<Sector>, t: seq<Sector>, backup: nat, mbr: Sector, h: Header,
                     rest: seq<byte>, guid: Guid)
    requires Image(v0, v, t, backup, mbr, HeaderBytes(Sealed(h)) + rest, HeaderBytes(Sealed(Swapped(h, backup))) + rest)
    requires h == Header(0, 1, |v0| - 1, 2 + |t|, backup - 1, guid, 2, ITEMS, ENTRY_SIZE, Checksum(Flat(t)))
    ensures GptHeadersAre(v, |t|, backup, guid)
  {
    HeadersOnDisk(v0, v, t, backup, mbr, h, rest);
    HeadersAre(v, |t|, backup, guid, h);
  }

  lemma ImageTables(v0: seq<Sector>, v: seq<Sector>, t: seq<Sector>, backup: nat, mbr: Sector, first: Sector,
                    second: Sector, parts: seq<Part>, shift: nat, signedChar: bool)
    requires Image(v0, v, t, backup, mbr, first, second)
    requires Supported(shift) && t == TableOf(parts, shift, signedChar)
    ensures TableIs(v, 2, PerSector(shift), parts, shift, signedChar)
    ensures TableIs(v, backup, PerSector(shift), parts, shift, signedChar)
  {
    TableOnDisk(v, 2, t, PerSector(shift), parts, shift, signedChar);
    TableOnDisk(v, backup, t, PerSector(shift), parts, shift, signedChar);
  }

  lemma FormattedHeaders(v0: seq<Sector>, parts: seq<Part>, shift: nat, guid: Guid, signedChar: bool, backup: nat)
    requires Supported(shift) && LargeEnough(shift, |v0|) && backup == BackupSector(shift, |v0|)
    ensures var v := FormattedDisk(v0, parts, shift, guid, signedChar);
            && |v| == |v0| > 0 && GptHeadersAre(v, TableSectors(shift), backup, guid) && ProtectiveIs(v[0], |v|)
  {
    var v := FormattedDisk(v0, parts, shift, guid, signedChar);
    FirstSectorFacts(shift);
    TableFlat(parts, shift, signedChar);
    ImageHeaders(v0, v, TableOf(parts, shift, signedChar), backup, v[0],
                 PlainHeader(parts, shift, |v0|, guid, signedChar),
                 LeftOver(parts, HEADER_SIZE, shift, signedChar), guid);
    BootOnDisk(v[0], |v|, LeftOver(parts, MBR_SIZE, shift, signedChar));
  }

  /** Structures laid over the same row leave its end behind them. */
  lemma ImageLeftOvers(v0: seq<Sector>, v: seq<Sector>, t: seq<Sector>, backup: nat, row: Sector, boot: seq<byte>,
                       first: seq<byte>, second: seq<byte>)
    requires 0 < |t| && t[|t| - 1] == row && |row| >= 512 && |boot| == 512 && |first| == |second| == 92
    requires Image(v0, v, t, backup, boot + row[512..], first + row[92..], second + row[92..])
    ensures LeftOversAre(v, |t|)
  {
    assert v[1 + |t|] == v[2..2 + |t|][|t| - 1];
  }

  lemma LastOfTable(parts: seq<Part>, shift: nat, signedChar: bool)
    requires Supported(shift)
    ensures 0 < TableSectors(shift) && |LastRow(parts, shift, signedChar)| >= 512
    ensures TableOf(parts, shift, signedChar)[TableSectors(shift) - 1] == LastRow(parts, shift, signedChar)
  {
    GeometryFacts(shift);
    GptFormat.LastRowIs(parts, shift, signedChar, TableSectors(shift) - 1);
  }

  lemma FormattedLeftOvers(v0: seq<Sector>, parts: seq<Part>, shift: nat, guid: Guid, signedChar: bool, backup: nat)
    requires Supported(shift) && LargeEnough(shift, |v0|) && backup == BackupSector(shift, |v0|)
    ensures 0 < TableSectors(shift) < backup && |v0| == backup + TableSectors(shift) + 1
    ensures LeftOversAre(FormattedDisk(v0, parts, shift, guid, signedChar), TableSectors(shift))
  {
    var v := FormattedDisk(v0, parts, shift, guid, signedChar);
    FirstSectorFacts(shift);
    LastOfTable(parts, shift, signedChar);
    ImageLeftOvers(v0, v, TableOf(parts, shift, signedChar), backup, LastRow(parts, shift, signedChar),
                   MbrBytes([ProtectiveRecord(|v0|)]), HeaderBytes(FirstHeader(parts, shift, |v0|, guid, signedChar)),
                   HeaderBytes(SecondHeader(parts, shift, |v0|, guid, signedChar)));
  }

  lemma FormattedTables(v0: seq<Sector>, parts: seq<Part>, shift: nat, guid: Guid, signedChar: bool, backup: nat)
    requires Supported(shift) && LargeEnough(shift, |v0|) && backup == BackupSector(shift, |v0|)
    ensures var v := FormattedDisk(v0, parts, shift, guid, signedChar);
            && TableIs(v, 2, PerSector(shift), parts, shift, signedChar)
            && TableIs(v, backup, PerSector(shift), parts, shift, signedChar)
  {
    var v := FormattedDisk(v0, parts, shift, guid, signedChar);
    FirstSectorFacts(shift);
    ImageTables(v0, v, TableOf(parts, shift, signedChar), backup, v[0], v[1], v[|v| - 1], parts, shift, signedChar);
  }

  /** The bytes on a drive formatted with a GPT. The identifier is the one given, or else a new one. */
  lemma GptOnDisk(v0: seq<Sector>, parts: seq<Part>, shift: nat, given: Guid, generated: Guid, guid: Guid,
                  signedChar: bool, n: nat, backup: nat)
    requires Supported(shift) && LargeEnough(shift, |v0|) && guid == GptFormat.DiskGuid(given, generated)
    requires n == TableSectors(shift) && backup == BackupSector(shift, |v0|)
    ensures GptDiskIs(FormattedDisk(v0, parts, shift, guid, signedChar), n, backup, PerSector(shift), parts, shift,
                      guid, signedChar)
    ensures guid == if forall i | 0 <= i < 16 :: given[i] == 0 then generated else given
  {
    GuidOnDisk(given, generated);
    FormattedHeaders(v0, parts, shift, guid, signedChar, backup);
    FormattedTables(v0, parts, shift, guid, signedChar, backup);
    FormattedLeftOvers(v0, parts, shift, guid, signedChar, backup);
    TableBytes(shift);
  }

  lemma TableBytes(shift: nat)
    requires Supported(shift)
    ensures TableSectors(shift) * Pow2(shift) == 0x4000
  {
    GeometryFacts(shift);
    Associate(TableSectors(shift), PerSector(shift), ENTRY_SIZE);
  }

  lemma Associate(a: int, b: int, c: int)
    ensures a * (b * c) == (a * b) * c
  {
  }

  /** What formatting a drive with an MBR leaves in its first sector: for each partition one record with its type, its
      first sector and their number in 32 bits, and zeros behind the boot record. */
  lemma MbrOnDisk(parts: seq<Part>, shift: nat, heads: nat)
    requires Supported(shift) && MbrFormat.HeadCount(heads) && |parts| <= 4
    ensures var s := MbrFormat.BootSector(parts, shift, heads);
            && MbrBytesAre(s, MbrFormat.RecordsOf(parts, shift, heads)) && AllZero(s, 512, |s|)
            && forall i | 0 <= i < |parts| ::
                 && s[446 + 16 * i] == 0 && s[446 + 16 * i + 4] == parts[i].info.sysind
                 && Field(s, 446 + 16 * i + 8, 4, Shift(parts[i].offset, shift) % U32)
                 && Field(s, 446 + 16 * i + 12, 4, Shift(parts[i].size, shift) % U32)
  {
    GeometryFacts(shift);
    var recs := MbrFormat.RecordsOf(parts, shift, heads);
    MbrBytewise(recs, Zeros(Pow2(shift) - MBR_SIZE));
    var s := MbrFormat.BootSector(parts, shift, heads);
    forall i | 0 <= i < |parts|
      ensures s[446 + 16 * i] == 0 && s[446 + 16 * i + 4] == parts[i].info.sysind
      ensures Field(s, 446 + 16 * i + 8, 4, Shift(parts[i].offset, shift) % U32)
      ensures Field(s, 446 + 16 * i + 12, 4, Shift(parts[i].size, shift) % U32) {
      assert SlotBytesAre(s, recs, i);
    }
  }
}
