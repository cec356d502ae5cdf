/** What the checks on a GPT header let through, and what they do not. */
module HeaderChecks {
  import opened Bytes
  import opened Crc32s
  import opened CrcValues
  import opened GptLayout
  import opened DiskBytes

  /** A header sector as far as everything but its checksum goes: signature, version 1.0, a size of at least 92 bytes
      and at most the sector, 128 bytes for an entry, and at most 128 of them. */
  ghost predicate WellFormed(s: seq<byte>, size: nat) {
    && |s| >= 92 && s[0..8] == EFI_PART && s[8..12] == [0, 0, 1, 0] && Field(s, 12, 4, size) && 92 <= size <= |s|
    && s[84..88] == [128, 0, 0, 0] && AtMost128(s)
  }

  predicate AtMost128(s: seq<byte>)
    requires |s| >= 92
  {
    s[81] == s[82] == s[83] == 0 && s[80] <= 128
  }

  lemma CountBytes(s: seq<byte>)
    requires |s| >= 92
    ensures FromLE(s[80..84]) <= 128 <==> AtMost128(s)
  {
    assert s[80..84] == [s[80], s[81], s[82], s[83]];
    FieldValues(s[80], s[81], s[82], s[83]);
  }

  lemma SameField(s: seq<byte>, at: nat, n: nat, x: nat)
    requires at + n <= |s| && Field(s, at, n, x) && x < Pow256(n)
    ensures s[at..at + n] == LE(n, x) && FromLE(s[at..at + n]) == x
  {
    var f := LE(n, x);
    LERoundTrip(n, x);
    forall i | 0 <= i < n ensures s[at..at + n][i] == f[i] {
      LEByte(n, x, i);
    }
  }

  lemma SameBytes(s: seq<byte>, magic: seq<byte>, x: nat)
    requires |s| == |magic| && FromLE(magic) == x
    ensures FromLE(s) == x <==> s == magic
  {
    if FromLE(s) == x {
      FieldUnique(s, magic);
    }
  }

  lemma MagicValues()
    ensures FromLE(EFI_PART) == SIGNATURE && FromLE([0, 0, 1, 0]) == REVISION && FromLE([128, 0, 0, 0]) == ENTRY_SIZE
  {
    Magic();
    Word64RoundTrip(SIGNATURE);
    FieldValues(0, 0, 1, 0);
    FieldValues(128, 0, 0, 0);
  }

  lemma FixedFields(s: seq<byte>)
    requires |s| >= 92
    ensures FromLE(s[0..8]) == SIGNATURE <==> s[0..8] == EFI_PART
    ensures FromLE(s[8..12]) == REVISION <==> s[8..12] == [0, 0, 1, 0]
    ensures FromLE(s[84..88]) == ENTRY_SIZE <==> s[84..88] == [128, 0, 0, 0]
  {
    MagicValues();
    SameBytes(s[0..8], EFI_PART, SIGNATURE);
    SameBytes(s[8..12], [0, 0, 1, 0], REVISION);
    SameBytes(s[84..88], [128, 0, 0, 0], ENTRY_SIZE);
  }

  lemma SizeField(s: seq<byte>, size: nat)
    requires |s| >= 92 && size < 0x1_0000_0000
    ensures Field(s, 12, 4, size) <==> HeaderSize(s) == size
  {
    FieldRead(s, 12, 4);
    if Field(s, 12, 4, size) {
      assert Pow256(4) == 0x1_0000_0000;
      SameField(s, 12, 4, size);
    }
  }

  lemma AcceptedWith(s: seq<byte>, size: nat)
    requires WellFormed(s, size) && size < 0x1_0000_0000
    ensures HeaderOk(s) <==> FromLE(s[16..20]) == Checksum(Patch(s, 16, Zeros(4))[..size])
  {
    FixedFields(s);
    CountBytes(s);
    SizeField(s, size);
  }

  lemma FieldReplaced(s: seq<byte>, size: nat, d: seq<byte>)
    requires WellFormed(s, size) && |d| == 4
    ensures var t := Patch(s, 16, d);
            t[16..20] == d && Patch(t, 16, Zeros(4)) == Patch(s, 16, Zeros(4)) && WellFormed(t, size)
  {
    var t := Patch(s, 16, d);
    assert t[0..8] == s[0..8] && t[8..12] == s[8..12] && t[84..88] == s[84..88];
    forall i | 0 <= i < 4 ensures t[12 + i] == (size / Pow256(i)) % 256 {
      assert t[12 + i] == s[12 + i];
    }
  }

  lemma FieldIs(d: seq<byte>, x: nat)
    requires |d| == 4 && x < 0x1_0000_0000
    ensures FromLE(d) == x <==> d == LE(4, x)
  {
    Word32RoundTrip(x);
    if FromLE(d) == x {
      FieldUnique(d, LE(4, x));
    }
  }

  /** Any well-formed sector is accepted with exactly one value of its checksum field, that of its first
      size bytes with the field zero. */
  lemma OneChecksum(s: seq<byte>, size: nat, d: seq<byte>)
    requires WellFormed(s, size) && size < 0x1_0000_0000 && |d| == 4
    ensures HeaderOk(Patch(s, 16, d)) <==> d == LE(4, Checksum(Patch(s, 16, Zeros(4))[..size]))
  {
    FieldReplaced(s, size, d);
    AcceptedWith(Patch(s, 16, d), size);
    FieldIs(d, Checksum(Patch(s, 16, Zeros(4))[..size]));
  }

  /** A sector that is not well-formed is refused. */
  lemma MalformedRefused(s: seq<byte>, size: nat)
    requires |s| >= 92 && Field(s, 12, 4, size) && size < 0x1_0000_0000 && HeaderOk(s)
    ensures WellFormed(s, size)
  {
    FixedFields(s);
    CountBytes(s);
    SizeField(s, size);
  }

  lemma NumberInjective(c: bv32, d: bv32)
    requires Number(c) == Number(d)
    ensures c == d
  {
    PackOfField(c, 4);
    PackOfField(d, 4);
  }

  lemma PatchedBurst(s: seq<byte>, t: seq<byte>, size: nat, at: nat, n: nat)
    requires 20 <= at && at + n <= size <= |s| == |t|
    requires forall i | 0 <= i < |s| && !(at <= i < at + n) :: t[i] == s[i]
    ensures var p, q := Patch(s, 16, Zeros(4)), Patch(t, 16, Zeros(4));
            && p[..size] == p[..at] + s[at..at + n] + p[at + n..size]
            && q[..size] == p[..at] + t[at..at + n] + p[at + n..size]
  {
  }

  /** A header that is accepted is refused once anything within four consecutive bytes behind its checksum is
      changed, whatever it is changed to. */
  lemma CorruptionRefused(s: seq<byte>, t: seq<byte>, at: nat, n: nat)
    requires |s| == |t| >= 92 && HeaderOk(s) && s != t
    requires n <= 4 && 20 <= at && at + n <= HeaderSize(s)
    requires forall i | 0 <= i < |s| && !(at <= i < at + n) :: t[i] == s[i]
    ensures !HeaderOk(t)
  {
    var size := HeaderSize(s);
    assert t[12..16] == s[12..16] && t[16..20] == s[16..20];
    PatchedBurst(s, t, size, at, n);
    var p, q := Patch(s, 16, Zeros(4)), Patch(t, 16, Zeros(4));
    if s[at..at + n] == t[at..at + n] {
      forall i | 0 <= i < |s| ensures s[i] == t[i] {
        if at <= i < at + n {
          assert s[at..at + n][i - at] == t[at..at + n][i - at];
        }
      }
    }
    Crc32BurstDetected(0, p[..at], s[at..at + n], t[at..at + n], p[at + n..size]);
    if HeaderOk(t) {
      NumberInjective(Crc32(0, p[..size]), Crc32(0, q[..size]));
    }
  }
}
