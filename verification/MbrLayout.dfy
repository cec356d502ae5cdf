/** The bytes of a master boot record, section 5.2 of the UEFI 2.10 specification, and its
    cylinder-head-sector fields. */
module MbrLayout {
  import opened Bits
  import opened Bytes
  import opened Sectors
  import opened GptLayout

  const MBR_SIZE: nat := 512
  const RECORDS_AT: nat := 446
  const RECORD_SIZE: nat := 16
  const MBR_SIGNATURE: nat := 0xAA55
  const OS_GPT: byte := 0xEE
  const OS_EXTENDED: byte := 0x05

  /** Head, sector and track fields as they are packed into a record. */
  datatype Chs = Chs(head: byte, sector: byte, track: byte)

  datatype Record = Record(boot: byte, first: Chs, osType: byte, last: Chs, start: nat, size: nat)

  function ChsBytes(c: Chs): (r: seq<byte>)
    ensures |r| == 3
  {
    [c.head, c.sector, c.track]
  }

  function RecordBytes(rec: Record): (r: seq<byte>)
    ensures |r| == RECORD_SIZE
  {
    [rec.boot] + ChsBytes(rec.first) + [rec.osType] + ChsBytes(rec.last) + LE(4, rec.start) + LE(4, rec.size)
  }

  /** The i-th record of a boot record that holds recs. */
  function RecordSlot(recs: seq<Record>, i: nat): (r: seq<byte>)
    ensures |r| == RECORD_SIZE
  {
    if i < |recs| then RecordBytes(recs[i]) else Zeros(RECORD_SIZE)
  }

  function FourSlots(recs: seq<Record>): (r: seq<byte>)
    ensures |r| == 4 * RECORD_SIZE
  {
    RecordSlot(recs, 0) + RecordSlot(recs, 1) + RecordSlot(recs, 2) + RecordSlot(recs, 3)
  }

  /** A boot record without boot code. */
  function MbrBytes(recs: seq<Record>): (r: seq<byte>)
    ensures |r| == MBR_SIZE
  {
    Zeros(RECORDS_AT) + FourSlots(recs) + LE(2, MBR_SIGNATURE)
  }

  // What is read of a boot record

  datatype Seen = Seen(osType: byte, start: nat, size: nat)

  function SeenAt(s: seq<byte>, i: nat): Seen
    requires i < 4 && |s| >= MBR_SIZE
  {
    var at := RECORDS_AT + RECORD_SIZE * i;
    Seen(s[at + 4], FromLE(s[at + 8..at + 12]), FromLE(s[at + 12..at + 16]))
  }

  predicate Signed(s: seq<byte>)
    requires |s| >= MBR_SIZE
  {
    FromLE(s[510..512]) == MBR_SIGNATURE
  }

  lemma SlotOfFour(recs: seq<Record>, i: nat)
    requires i < 4
    ensures FourSlots(recs)[RECORD_SIZE * i..RECORD_SIZE * i + RECORD_SIZE] == RecordSlot(recs, i)
  {
  }

  lemma MbrParts(recs: seq<Record>, rest: seq<byte>, i: nat)
    requires i < 4
    ensures var s, at := MbrBytes(recs) + rest, RECORDS_AT + RECORD_SIZE * i;
            s[at..at + RECORD_SIZE] == RecordSlot(recs, i) && s[510..512] == LE(2, MBR_SIGNATURE)
  {
    var front, slots, sig := Zeros(RECORDS_AT), FourSlots(recs), LE(2, MBR_SIGNATURE);
    assert MbrBytes(recs) + rest == front + slots + (sig + rest);
    SlotOfFour(recs, i);
    SliceBetween(front, slots, sig + rest, RECORDS_AT, RECORD_SIZE * i, RECORD_SIZE);
    SliceBetween(front + slots, sig, rest, 510, 0, 2);
  }

  lemma FieldsInside(s: seq<byte>, at: nat, r: seq<byte>)
    requires |r| == RECORD_SIZE && at + RECORD_SIZE <= |s| && s[at..at + RECORD_SIZE] == r
    ensures s[at + 4] == r[4] && s[at + 8..at + 12] == r[8..12] && s[at + 12..at + 16] == r[12..16]
  {
    assert s[at..at + RECORD_SIZE][4] == s[at + 4];
  }

  lemma RecordFields(rec: Record)
    ensures var r := RecordBytes(rec);
            r[4] == rec.osType && r[8..12] == LE(4, rec.start) && r[12..16] == LE(4, rec.size)
  {
  }

  lemma {:induction false} ZeroField(n: nat)
    ensures FromLE(Zeros(n)) == 0
  {
    if n == 0 {
    } else {
      ZeroField(n - 1);
      assert Zeros(n)[1..] == Zeros(n - 1);
    }
  }

  /** What is read back from the i-th record; unused ones read as all zero. */
  lemma RecordRoundTrip(recs: seq<Record>, rest: seq<byte>, i: nat)
    requires i < 4 && forall k | 0 <= k < |recs| :: recs[k].start < U32 && recs[k].size < U32
    ensures SeenAt(MbrBytes(recs) + rest, i) ==
            if i < |recs| then Seen(recs[i].osType, recs[i].start, recs[i].size) else Seen(0, 0, 0)
  {
    MbrParts(recs, rest, i);
    FieldsInside(MbrBytes(recs) + rest, RECORDS_AT + RECORD_SIZE * i, RecordSlot(recs, i));
    if i < |recs| {
      RecordFields(recs[i]);
      Word32RoundTrip(recs[i].start);
      Word32RoundTrip(recs[i].size);
    } else {
      assert Zeros(RECORD_SIZE)[8..12] == Zeros(4) && Zeros(RECORD_SIZE)[12..16] == Zeros(4);
      ZeroField(4);
    }
  }

  lemma SignatureRoundTrip(recs: seq<Record>, rest: seq<byte>)
    ensures Signed(MbrBytes(recs) + rest)
  {
    MbrParts(recs, rest, 0);
    LERoundTrip(2, MBR_SIGNATURE);
    assert Pow256(2) == 0x1_0000;
  }

  function ChsAt(s: seq<byte>, at: nat): Chs
    requires at + 3 <= |s|
  {
    Chs(s[at], s[at + 1], s[at + 2])
  }

  /** All fields of the i-th record. */
  function ReadRecord(s: seq<byte>, i: nat): Record
    requires i < 4 && |s| >= MBR_SIZE
  {
    var at, seen := RECORDS_AT + RECORD_SIZE * i, SeenAt(s, i);
    Record(s[at], ChsAt(s, at + 1), seen.osType, ChsAt(s, at + 5), seen.start, seen.size)
  }

  lemma BytesInside(s: seq<byte>, at: nat, r: seq<byte>)
    requires |r| == RECORD_SIZE && at + RECORD_SIZE <= |s| && s[at..at + RECORD_SIZE] == r
    ensures s[at] == r[0] && ChsAt(s, at + 1) == Chs(r[1], r[2], r[3]) && ChsAt(s, at + 5) == Chs(r[5], r[6], r[7])
  {
    var t := s[at..at + RECORD_SIZE];
    assert t[0] == s[at] && t[1] == s[at + 1] && t[2] == s[at + 2] && t[3] == s[at + 3];
    assert t[5] == s[at + 5] && t[6] == s[at + 6] && t[7] == s[at + 7];
  }

  lemma RecordBytesAt(rec: Record)
    ensures var r := RecordBytes(rec);
            && r[0] == rec.boot && Chs(r[1], r[2], r[3]) == rec.first && Chs(r[5], r[6], r[7]) == rec.last
  {
  }

  /** Every record is read back as it was written, if its numbers fit in 32 bits. */
  lemma RecordReadBack(recs: seq<Record>, rest: seq<byte>, i: nat)
    requires i < 4 && forall k | 0 <= k < |recs| :: recs[k].start < U32 && recs[k].size < U32
    ensures ReadRecord(MbrBytes(recs) + rest, i) ==
            if i < |recs| then recs[i] else Record(0, Chs(0, 0, 0), 0, Chs(0, 0, 0), 0, 0)
  {
    RecordRoundTrip(recs, rest, i);
    MbrParts(recs, rest, i);
    BytesInside(MbrBytes(recs) + rest, RECORDS_AT + RECORD_SIZE * i, RecordSlot(recs, i));
    if i < |recs| {
      RecordBytesAt(recs[i]);
    }
  }
}
