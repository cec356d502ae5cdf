/** The bytes of GPT entries and headers, section 5.3 of the UEFI 2.10 specification, as they are written and read. */
module GptLayout {
  import opened Bits
  import opened Bytes
  import opened PartInfos
  import opened Crc32s

  const ITEMS: nat := 128
  const ENTRY_SIZE: nat := 128
  const NAME_LENGTH: nat := 36
  const HEADER_SIZE: nat := 92
  // "EFI PART"
  const SIGNATURE: nat := 0x5452_4150_2049_4645
  const REVISION: nat := 0x0001_0000

  // Names

  /** A name up to its first NUL, cut to the room there is. */
  function Cut(name: seq<byte>, room: nat): (r: seq<byte>)
    ensures |r| <= room
    decreases room
  {
    if room == 0 || name == [] || name[0] == 0 then [] else [name[0]] + Cut(name[1..], room - 1)
  }

  /** A character widened to 16 bits; where char is signed, so is the widening. */
  function Wide(c: byte, signedChar: bool): (r: seq<byte>)
    ensures |r| == 2
  {
    [c, if signedChar && c >= 128 then 255 else 0]
  }

  function Unicode(name: seq<byte>, room: nat, signedChar: bool): (r: seq<byte>)
    requires |name| <= room
    ensures |r| == 2 * room
    decreases room
  {
    if room == 0 then [] else if name == [] then Zeros(2 * room)
    else Wide(name[0], signedChar) + Unicode(name[1..], room - 1, signedChar)
  }

  /** The low bytes of the 16-bit characters up to the first zero. */
  function FromUnicode(s: seq<byte>): seq<byte> {
    if |s| < 2 || (s[0] == 0 && s[1] == 0) then [] else [s[0]] + FromUnicode(s[2..])
  }

  lemma {:induction false} UnicodeRoundTrip(name: seq<byte>, room: nat, signedChar: bool)
    requires |name| <= room && 0 !in name
    ensures FromUnicode(Unicode(name, room, signedChar)) == name
    decreases room
  {
    if name == [] {
    } else {
      var rest := Unicode(name[1..], room - 1, signedChar);
      UnicodeRoundTrip(name[1..], room - 1, signedChar);
      assert (Wide(name[0], signedChar) + rest)[2..] == rest;
    }
  }

  lemma {:induction false} CutFacts(name: seq<byte>, room: nat)
    ensures 0 !in Cut(name, room)
    ensures Cut(name, room) == name <==> |name| <= room && 0 !in name
    decreases room
  {
    if room == 0 || name == [] || name[0] == 0 {
    } else {
      CutFacts(name[1..], room - 1);
      assert name == [name[0]] + name[1..];
    }
  }

  /** A name comes back up to its first NUL and its 36th character: whole exactly when
      it has no NUL and at most 36. */
  lemma NameRoundTrip(name: seq<byte>, signedChar: bool)
    ensures var back := FromUnicode(Unicode(Cut(name, NAME_LENGTH), NAME_LENGTH, signedChar));
            back == Cut(name, NAME_LENGTH) && (back == name <==> |name| <= NAME_LENGTH && 0 !in name)
  {
    CutFacts(name, NAME_LENGTH);
    UnicodeRoundTrip(Cut(name, NAME_LENGTH), NAME_LENGTH, signedChar);
  }

  // Entries

  function StartLba(p: Part, shift: nat): nat {
    Shift(p.offset, shift)
  }

  function EndLba(p: Part, shift: nat): nat {
    U64(Shift(U64(p.offset + p.size), shift) - 1)
  }

  /** Everything of an entry but the name: 56 bytes. */
  function EntryHead(p: Part, shift: nat): (r: seq<byte>)
    ensures |r| == 56
  {
    p.info.typeGuid + p.info.uniqueGuid + LE(8, StartLba(p, shift)) + LE(8, EndLba(p, shift)) + Zeros(8)
  }

  function EntryBytes(p: Part, shift: nat, signedChar: bool): (r: seq<byte>)
    ensures |r| == ENTRY_SIZE
  {
    EntryHead(p, shift) + Unicode(Cut(p.info.name, NAME_LENGTH), NAME_LENGTH, signedChar)
  }

  datatype Entry = Entry(typeGuid: Guid, uniqueGuid: Guid, start: nat, end: nat, name: seq<byte>)

  function ReadEntry(e: seq<byte>): Entry
    requires |e| == ENTRY_SIZE
  {
    Entry(e[0..16], e[16..32], FromLE(e[32..40]), FromLE(e[40..48]), FromUnicode(e[56..128]))
  }

  lemma SplitFive(a: seq<byte>, b: seq<byte>, c: seq<byte>, d: seq<byte>, e: seq<byte>, n: seq<byte>)
    requires |a| == 16 && |b| == 16 && |c| == 8 && |d| == 8 && |e| == 8 && |n| == 72
    ensures var s := a + b + c + d + e + n;
            && s[0..16] == a && s[16..32] == b && s[32..40] == c && s[40..48] == d && s[48..56] == e && s[56..128] == n
  {
  }

  lemma Word64RoundTrip(x: nat)
    requires x < WORD
    ensures FromLE(LE(8, x)) == x
  {
    LERoundTrip(8, x);
    assert Pow256(4) == U32 && Pow256(8) == WORD;
  }

  lemma {:induction false} ShiftSmaller(x: nat, bits: nat)
    ensures Shift(x, bits) <= x
  {
    if bits == 0 {
    } else {
      ShiftSmaller(x / 2, bits - 1);
    }
  }

  /** What is read from the entry of a partition. */
  lemma EntryFields(p: Part, shift: nat, signedChar: bool)
    requires p.offset < WORD
    ensures EntryBytes(p, shift, signedChar)[48..56] == Zeros(8)
    ensures ReadEntry(EntryBytes(p, shift, signedChar)) ==
            Entry(p.info.typeGuid, p.info.uniqueGuid, StartLba(p, shift), EndLba(p, shift),
                Cut(p.info.name, NAME_LENGTH))
  {
    SplitFive(p.info.typeGuid, p.info.uniqueGuid, LE(8, StartLba(p, shift)), LE(8, EndLba(p, shift)), Zeros(8),
              Unicode(Cut(p.info.name, NAME_LENGTH), NAME_LENGTH, signedChar));
    ShiftSmaller(p.offset, shift);
    Word64RoundTrip(StartLba(p, shift));
    Word64RoundTrip(EndLba(p, shift));
    NameRoundTrip(p.info.name, signedChar);
  }

  /** Where an entry says its partition is, in 64-bit arithmetic. */
  function EntryOffset(e: Entry, shift: nat): nat {
    U64(e.start * Pow2(shift))
  }

  function EntrySize(e: Entry, shift: nat): nat {
    U64(U64(1 + e.end - e.start) * Pow2(shift))
  }

  /** An entry keeps both ends of its partition, rounded down to sectors. */
  lemma EntryPlace(p: Part, shift: nat, e: Entry)
    requires p.offset + p.size < WORD && Shift(p.offset, shift) > 0
    requires e.start == StartLba(p, shift) && e.end == EndLba(p, shift)
    ensures EntryOffset(e, shift) == p.offset - Mask(p.offset, shift)
    ensures EntryOffset(e, shift) + EntrySize(e, shift) == p.offset + p.size - Mask(p.offset + p.size, shift)
  {
    var a, b := p.offset, p.offset + p.size;
    var s, t := Shift(a, shift), Shift(b, shift);
    ShiftAndMask(a, shift);
    ShiftAndMask(b, shift);
    ShiftSmaller(b, shift);
    ShiftMonotone(a, b, shift);
    LbaCount(s, t);
    SectorsBetween(s, t, Pow2(shift), b);
  }

  lemma SectorsBetween(s: nat, t: nat, p: nat, b: nat)
    requires s <= t && t * p <= b < WORD
    ensures U64(s * p) == s * p && U64((t - s) * p) == t * p - s * p
  {
    var x, y := s * p, (t - s) * p;
    SumProduct(t - s, s, p);
    MulMonotone(p, 0, t - s);
    InWord(x, y, b);
  }

  lemma LbaCount(s: nat, t: nat)
    requires 0 < s <= t < WORD
    ensures U64(1 + U64(t - 1) - s) == t - s
  {
  }

  lemma InWord(x: nat, y: int, b: nat)
    requires x + y <= b < WORD && y >= 0
    ensures U64(x) == x && U64(y) == y
  {
  }

  lemma {:induction false} ShiftMonotone(a: nat, b: nat, bits: nat)
    requires a <= b
    ensures Shift(a, bits) <= Shift(b, bits)
  {
    if bits == 0 {
    } else {
      ShiftMonotone(a / 2, b / 2, bits - 1);
    }
  }

  /** So it is exact just when both ends are sector boundaries. */
  lemma EntryExact(p: Part, shift: nat, e: Entry)
    requires p.offset + p.size < WORD && Shift(p.offset, shift) > 0
    requires e.start == StartLba(p, shift) && e.end == EndLba(p, shift)
    ensures EntryOffset(e, shift) == p.offset && EntrySize(e, shift) == p.size <==>
            Mask(p.offset, shift) == 0 && Mask(p.offset + p.size, shift) == 0
  {
    EntryPlace(p, shift, e);
  }

  // Headers

  datatype Header = Header(crc: nat, myLba: nat, alternateLba: nat, firstUsable: nat, lastUsable: nat, diskGuid: Guid,
                           entryLba: nat, numEntries: nat, entrySize: nat, arrayCrc: nat)

  function HeaderHead(): (r: seq<byte>)
    ensures |r| == 16
  {
    LE(8, SIGNATURE) + LE(4, REVISION) + LE(4, HEADER_SIZE)
  }

  function HeaderPlace(h: Header): (r: seq<byte>)
    ensures |r| == 52
  {
    Zeros(4) + LE(8, h.myLba) + LE(8, h.alternateLba) + LE(8, h.firstUsable) + LE(8, h.lastUsable) + h.diskGuid
  }

  function HeaderTable(h: Header): (r: seq<byte>)
    ensures |r| == 20
  {
    LE(8, h.entryLba) + LE(4, h.numEntries) + LE(4, h.entrySize) + LE(4, h.arrayCrc)
  }

  function HeaderBytes(h: Header): (r: seq<byte>)
    ensures |r| == HEADER_SIZE
  {
    HeaderHead() + LE(4, h.crc) + HeaderPlace(h) + HeaderTable(h)
  }

  /** A header whose checksum field holds the checksum of the header with that field zero. */
  function Sealed(h: Header): Header {
    h.(crc := Checksum(HeaderBytes(h.(crc := 0))))
  }

  // What the scanner looks at in a header sector

  function HeaderSize(s: seq<byte>): nat
    requires |s| >= HEADER_SIZE
  {
    FromLE(s[12..16])
  }

  /** The checks on a header. One that claims to be longer than its sector is not covered and fails here. */
  predicate HeaderOk(s: seq<byte>)
    requires |s| >= HEADER_SIZE
  {
    && FromLE(s[0..8]) == SIGNATURE
    && FromLE(s[8..12]) == REVISION
    && HEADER_SIZE <= HeaderSize(s) <= |s|
    && FromLE(s[16..20]) == Checksum(Patch(s, 16, Zeros(4))[..HeaderSize(s)])
    && FromLE(s[84..88]) == ENTRY_SIZE
    && FromLE(s[80..84]) <= ITEMS
  }

  function EntryLbaOf(s: seq<byte>): nat
    requires |s| >= HEADER_SIZE
  {
    FromLE(s[72..80])
  }

  function NumEntriesOf(s: seq<byte>): nat
    requires |s| >= HEADER_SIZE
  {
    FromLE(s[80..84])
  }

  function ArrayCrcOf(s: seq<byte>): nat
    requires |s| >= HEADER_SIZE
  {
    FromLE(s[88..92])
  }

  lemma Word32RoundTrip(x: nat)
    requires x < U32
    ensures FromLE(LE(4, x)) == x
  {
    LERoundTrip(4, x);
    assert Pow256(4) == U32;
  }

  lemma SplitHead(s: seq<byte>, a: seq<byte>, b: seq<byte>, c: seq<byte>, crc: seq<byte>, rest: seq<byte>)
    requires |a| == 8 && |b| == 4 && |c| == 4 && |crc| == 4 && s == (a + b + c) + crc + rest
    ensures s[0..8] == a && s[8..12] == b && s[12..16] == c && s[16..20] == crc
    ensures Patch(s, 16, Zeros(4)) == (a + b + c) + Zeros(4) + rest
  {
  }

  lemma SplitTail(s: seq<byte>, front: seq<byte>, a: seq<byte>, b: seq<byte>, c: seq<byte>, d: seq<byte>,
                  rest: seq<byte>)
    requires |front| == 72 && |a| == 8 && |b| == 4 && |c| == 4 && |d| == 4 && s == front + (a + b + c + d) + rest
    ensures s[72..80] == a && s[80..84] == b && s[84..88] == c && s[88..92] == d
  {
  }

  lemma HeaderSplit(h: Header, rest: seq<byte>)
    ensures HeaderBytes(h) + rest == HeaderHead() + LE(4, h.crc) + (HeaderPlace(h) + HeaderTable(h) + rest)
  {
  }

  lemma HeadFields(h: Header, rest: seq<byte>)
    requires h.crc < U32
    ensures var s := HeaderBytes(h) + rest;
            && FromLE(s[0..8]) == SIGNATURE && FromLE(s[8..12]) == REVISION && HeaderSize(s) == HEADER_SIZE
            && FromLE(s[16..20]) == h.crc
  {
    HeaderSplit(h, rest);
    SplitHead(HeaderBytes(h) + rest, LE(8, SIGNATURE), LE(4, REVISION), LE(4, HEADER_SIZE), LE(4, h.crc),
              HeaderPlace(h) + HeaderTable(h) + rest);
    Word64RoundTrip(SIGNATURE);
    Word32RoundTrip(REVISION);
    Word32RoundTrip(HEADER_SIZE);
    Word32RoundTrip(h.crc);
  }

  /** Zeroing the checksum field of a header sector. */
  lemma CrcCleared(h: Header, rest: seq<byte>)
    ensures Patch(HeaderBytes(h) + rest, 16, Zeros(4)) == HeaderBytes(h.(crc := 0)) + rest
  {
    assert LE(4, 0) == Zeros(4);
    HeaderSplit(h, rest);
    HeaderSplit(h.(crc := 0), rest);
    SplitHead(HeaderBytes(h) + rest, LE(8, SIGNATURE), LE(4, REVISION), LE(4, HEADER_SIZE), LE(4, h.crc),
              HeaderPlace(h) + HeaderTable(h) + rest);
  }

  lemma TableFields(h: Header, rest: seq<byte>)
    requires h.entryLba < WORD && h.numEntries < U32 && h.entrySize < U32
    ensures var s := HeaderBytes(h) + rest;
            h.arrayCrc < U32 ==> ArrayCrcOf(s) == h.arrayCrc
    ensures var s := HeaderBytes(h) + rest;
            EntryLbaOf(s) == h.entryLba && NumEntriesOf(s) == h.numEntries && FromLE(s[84..88]) == h.entrySize
  {
    SplitTail(HeaderBytes(h) + rest, HeaderHead() + LE(4, h.crc) + HeaderPlace(h),
              LE(8, h.entryLba), LE(4, h.numEntries), LE(4, h.entrySize), LE(4, h.arrayCrc), rest);
    Word64RoundTrip(h.entryLba);
    Word32RoundTrip(h.numEntries);
    Word32RoundTrip(h.entrySize);
    if h.arrayCrc < U32 {
      Word32RoundTrip(h.arrayCrc);
    }
  }

  /** All fields of a header, at their places in the specification. */
  function ReadHeader(s: seq<byte>): Header
    requires |s| >= HEADER_SIZE
  {
    Header(FromLE(s[16..20]), FromLE(s[24..32]), FromLE(s[32..40]), FromLE(s[40..48]), FromLE(s[48..56]), s[56..72],
           EntryLbaOf(s), NumEntriesOf(s), FromLE(s[84..88]), ArrayCrcOf(s))
  }

  predicate FieldsFit(h: Header) {
    && h.crc < U32 && h.arrayCrc < U32 && h.numEntries < U32 && h.entrySize < U32
    && h.myLba < WORD && h.alternateLba < WORD && h.firstUsable < WORD && h.lastUsable < WORD && h.entryLba < WORD
  }

  lemma SplitPlace(s: seq<byte>, front: seq<byte>, z: seq<byte>, a: seq<byte>, b: seq<byte>, c: seq<byte>, d: seq<byte>,
                   g: seq<byte>, rest: seq<byte>)
    requires |front| == 20 && |z| == 4 && |a| == 8 && |b| == 8 && |c| == 8 && |d| == 8 && |g| == 16
    requires s == front + (z + a + b + c + d + g) + rest
    ensures s[24..32] == a && s[32..40] == b && s[40..48] == c && s[48..56] == d && s[56..72] == g && s[20..24] == z
  {
  }

  lemma PlaceSplit(h: Header, rest: seq<byte>)
    ensures HeaderBytes(h) + rest == (HeaderHead() + LE(4, h.crc)) + HeaderPlace(h) + (HeaderTable(h) + rest)
  {
  }

  lemma PlaceFields(h: Header, rest: seq<byte>)
    requires FieldsFit(h)
    ensures var s := HeaderBytes(h) + rest;
            && FromLE(s[24..32]) == h.myLba && FromLE(s[32..40]) == h.alternateLba
            && FromLE(s[40..48]) == h.firstUsable && FromLE(s[48..56]) == h.lastUsable && s[56..72] == h.diskGuid
            && s[20..24] == Zeros(4)
  {
    PlaceSplit(h, rest);
    SplitPlace(HeaderBytes(h) + rest, HeaderHead() + LE(4, h.crc), Zeros(4), LE(8, h.myLba), LE(8, h.alternateLba),
               LE(8, h.firstUsable), LE(8, h.lastUsable), h.diskGuid, HeaderTable(h) + rest);
    Word64RoundTrip(h.myLba);
    Word64RoundTrip(h.alternateLba);
    Word64RoundTrip(h.firstUsable);
    Word64RoundTrip(h.lastUsable);
  }

  /** A header whose fields fit is read back as it was written, whatever follows it. */
  lemma HeaderRoundTrip(h: Header, rest: seq<byte>)
    requires FieldsFit(h)
    ensures ReadHeader(HeaderBytes(h) + rest) == h
  {
    HeadFields(h, rest);
    PlaceFields(h, rest);
    TableFields(h, rest);
  }

  /** A sealed header passes the scanner's checks if and only if its table has the standard entry size and at most 128
      entries; the bytes behind it do not matter. */
  lemma SealedOk(h: Header, rest: seq<byte>)
    requires h.entryLba < WORD && h.numEntries < U32 && h.entrySize < U32
    ensures HeaderOk(HeaderBytes(Sealed(h)) + rest) <==> h.entrySize == ENTRY_SIZE && h.numEntries <= ITEMS
  {
    var plain := HeaderBytes(h.(crc := 0));
    HeadFields(Sealed(h), rest);
    CrcCleared(Sealed(h), rest);
    TableFields(Sealed(h), rest);
    assert Sealed(h).(crc := 0) == h.(crc := 0);
    assert (plain + rest)[..HEADER_SIZE] == plain;
  }
}
