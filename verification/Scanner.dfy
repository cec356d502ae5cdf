/** The scanner: an object that is asked for one partition after another and keeps its place in between. */
module Scanners {
  import opened Bits
  import opened Bytes
  import opened Sectors
  import opened PartInfos
  import opened Crc32s
  import opened Cache
  import opened BlockDevices
  import opened SectorIO
  import opened GptLayout
  import opened MbrLayout
  import opened GptImage
  import opened ScanSpec

  datatype State = Idle | Mbr | Gpt | Error | Done

  /** Checks the header in the buffer, whose checksum field is zero meanwhile. */
  method VerifyGptHeader(gpt: array<byte>) returns (ok: bool)
    requires gpt.Length >= HEADER_SIZE
    modifies gpt
    ensures gpt[..] == old(gpt[..]) && ok == HeaderOk(gpt[..])
  {
    var s := gpt[..];
    if FromLE(s[0..8]) != SIGNATURE || FromLE(s[8..12]) != REVISION {
      return false;
    }
    var size := HeaderSize(s);
    if size < HEADER_SIZE || size > gpt.Length {
      return false;
    }
    var bcc := CrcWithoutField(gpt, size);
    ok := Number(bcc) == FromLE(s[16..20]) && FromLE(s[84..88]) == ENTRY_SIZE && FromLE(s[80..84]) <= ITEMS;
  }

  /** The checksum of the first size bytes with the checksum field zero; the field is put back afterwards. */
  method CrcWithoutField(gpt: array<byte>, size: nat) returns (bcc: bv32)
    requires HEADER_SIZE <= size <= gpt.Length
    modifies gpt
    ensures gpt[..] == old(gpt[..]) && bcc == Crc32(0, Patch(gpt[..], 16, Zeros(4))[..size])
  {
    var s := gpt[..];
    StoreBytes(gpt, 16, Zeros(4));
    ghost var cleared := gpt[..];
    assert gpt[..size] == cleared[..size];
    bcc := ComputeCrc32(0, gpt[..size]);
    StoreBytes(gpt, 16, s[16..20]);
    PatchBack(s, 16, Zeros(4));
  }

  lemma PatchBack(s: seq<byte>, at: nat, d: seq<byte>)
    requires at + |d| <= |s|
    ensures Patch(Patch(s, at, d), at, s[at..at + |d|]) == s
  {
  }

  // Where the scanner is in a GPT

  /** Sectors of the table read by the time k entries have been looked at. */
  function Groups(k: nat, per: nat): nat
    requires per > 0
  {
    (k + per - 1) / per
  }

  lemma GroupsStep(k: nat, per: nat)
    requires per > 0
    ensures k % per == 0 ==> Groups(k, per) == k / per
    ensures Groups(k + 1, per) == k / per + 1
    ensures k % per != 0 ==> Groups(k, per) == k / per + 1 && (k - 1) / per == k / per
  {
    var q, r := k / per, k % per;
    assert k == per * q + r;
    ProductStep(per, q);
    DivModUnique(k + 1 + per - 1, per, q + 1, r);
    if r == 0 {
      DivModUnique(k + per - 1, per, q, per - 1);
    } else {
      DivModUnique(k + per - 1, per, q + 1, r - 1);
      DivModUnique(k - 1, per, q, r - 1);
    }
  }

  lemma NextLba(lba: nat, q: nat)
    ensures U64(U64(lba + q) + 1) == U64(lba + (q + 1))
  {
    U64IsRemainder(lba + q);
    U64IsRemainder(U64(lba + q) + 1);
    U64IsRemainder(lba + (q + 1));
    RemainderPlusOne(lba + q, WORD);
  }

  lemma RemainderPlusOne(x: nat, m: nat)
    requires m > 0
    ensures (x % m + 1) % m == (x + 1) % m
  {
    var q, r := x / m, x % m;
    assert x == m * q + r;
    if r + 1 < m {
      DivModUnique(x + 1, m, q, r + 1);
      DivModUnique(r + 1, m, 0, r + 1);
    } else {
      ProductStep(m, q);
      DivModUnique(x + 1, m, q + 1, 0);
      DivModUnique(r + 1, m, 1, 0);
    }
  }

  /** The sectors of the first n groups, in order. */
  function TableReads(lba: nat, n: nat, shift: nat): (r: seq<nat>)
    ensures |r| == n
  {
    if n == 0 then [] else TableReads(lba, n - 1, shift) + [Wrapped(U64(lba + (n - 1)), shift)]
  }

  /** On any disk that can hold the table, these are its sectors, each once and one after another. */
  lemma {:induction false} TableReadsInOrder(lba: nat, n: nat, shift: nat)
    requires (lba + n) * Pow2(shift) < WORD
    ensures forall q | 0 <= q < n :: TableReads(lba, n, shift)[q] == lba + q
  {
    if n == 0 {
    } else {
      MulMonotone(Pow2(shift), lba + (n - 1), lba + n);
      MulMonotone(lba + (n - 1), 1, Pow2(shift));
      TableReadsInOrder(lba, n - 1, shift);
      WrappedSmall(lba + (n - 1), shift);
    }
  }

  /** How far the table at lba has been read when k entries have been looked at: the next sector, and those read. */
  ghost predicate ReadUpTo(lba: nat, k: nat, shift: nat, sector: nat, seen: seq<nat>)
    requires Supported(shift)
  {
    PerSectorPositive(shift);
    && sector == U64(lba + Groups(k, PerSector(shift)))
    && seen == TableReads(lba, Groups(k, PerSector(shift)), shift)
  }

  lemma {:induction false} FieldBound(s: seq<byte>)
    ensures FromLE(s) < Pow256(|s|)
  {
    if s == [] {
    } else {
      FieldBound(s[1..]);
    }
  }

  lemma LbaBound(s: Sector)
    requires |s| >= HEADER_SIZE
    ensures EntryLbaOf(s) < WORD
  {
    FieldBound(s[72..80]);
    assert Pow256(4) == 0x1_0000_0000 && Pow256(8) == WORD;
  }

  lemma ReadNothing(lba: nat, shift: nat)
    requires Supported(shift) && lba < WORD
    ensures ReadUpTo(lba, 0, shift, lba, [])
  {
    PerSectorPositive(shift);
    DivModUnique(PerSector(shift) - 1, PerSector(shift), 0, PerSector(shift) - 1);
  }

  predicate StartsSector(k: nat, shift: nat)
    requires Supported(shift)
  {
    PerSectorPositive(shift);
    k % PerSector(shift) == 0
  }

  lemma ReadOn(lba: nat, k: nat, shift: nat, sector: nat, seen: seq<nat>)
    requires Supported(shift) && ReadUpTo(lba, k, shift, sector, seen)
    ensures StartsSector(k, shift) ==>
              && EntrySector(lba, k, shift) == Wrapped(sector, shift)
              && ReadUpTo(lba, k + 1, shift, U64(sector + 1), seen + [Wrapped(sector, shift)])
    ensures !StartsSector(k, shift) ==>
              && k > 0 && EntrySector(lba, k, shift) == EntrySector(lba, k - 1, shift)
              && ReadUpTo(lba, k + 1, shift, sector, seen)
  {
    PerSectorPositive(shift);
    var per := PerSector(shift);
    var q := k / per;
    GroupsStep(k, per);
    NextLba(lba, q);
  }

  class Scanner {
    const dev: BlockDevice
    const cfg: Config

    var state: State
    var buffer: array<byte>
    var entryBuffer: array<byte>
    // Next sector of the partition table.
    var sector: nat
    var mbrEntries: seq<Seen>
    var numPartitionEntries: nat
    var partitionIndex: nat
    var mbrPartID: nat

    // Where the table starts, which of its sectors have been read, and how many rounds are enough for the records.
    ghost var firstLba: nat
    ghost var tableReads: seq<nat>
    ghost var rounds: nat

    ghost predicate Ready()
      reads this, dev, dev.Parts
    {
      && this !in dev.Parts && buffer !in dev.Parts && entryBuffer !in dev.Parts
      && dev.Valid() && InBounds(dev.slots, |dev.view|)
    }

    ghost predicate InMbr()
      reads this, dev
    {
      && Supported(dev.sectorSizeShift) && buffer.Length == dev.sectorSize
      && |mbrEntries| == numPartitionEntries && partitionIndex <= numPartitionEntries
      && buffer.Length >= MBR_SIZE && Long(dev.view) && Exhausts(dev.view, mbrEntries, partitionIndex, rounds)
    }

    ghost predicate InGpt()
      reads this, dev, buffer
    {
      && Supported(dev.sectorSizeShift)
      && buffer.Length == entryBuffer.Length == dev.sectorSize && buffer != entryBuffer
      && partitionIndex <= numPartitionEntries
      && ReadUpTo(firstLba, partitionIndex, dev.sectorSizeShift, sector, tableReads)
      && (partitionIndex > 0 && !StartsSector(partitionIndex, dev.sectorSizeShift) ==>
            Loaded(EntrySector(firstLba, partitionIndex - 1, dev.sectorSizeShift)))
    }

    /** The buffer holds sector s. */
    ghost predicate Loaded(s: nat)
      reads this, dev, buffer
    {
      s < |dev.view| && buffer[..] == dev.view[s]
    }

    ghost predicate Valid()
      reads this, dev, dev.Parts, buffer
    {
      && Ready()
      && match state
         case Idle =>
           Scannable(dev.view, dev.sectorSizeShift) && numPartitionEntries == partitionIndex == mbrPartID == 0
         case Mbr => InMbr()
         case Gpt => InGpt()
         case Error => true
         case Done => partitionIndex >= numPartitionEntries
    }

    /** What the scanner has still to say. An error is forgotten if no entries were left when it happened. */
    ghost function Remaining(): Listing
      requires Valid()
      reads this, dev, dev.Parts, buffer
    {
      match state
      case Idle => Scan(cfg, dev.view, dev.sectorSizeShift)
      case Mbr => MbrFrom(cfg, dev.view, dev.sectorSizeShift, mbrEntries, partitionIndex, mbrPartID, rounds)
      case Gpt => GptFrom(cfg, dev.view, dev.sectorSizeShift, firstLba, numPartitionEntries, partitionIndex)
      case Error => Listing([], partitionIndex >= numPartitionEntries)
      case Done => Listing([], true)
    }

    /** The answer r, and the state after it, are what was announced. */
    ghost predicate Answers(l: Listing, r: Option<Part>)
      requires Valid()
      reads this, dev, dev.Parts, buffer
    {
      if l.parts == [] then r == None && (state == Error <==> !l.ok)
      else r == Some(l.parts[0]) && Remaining() == Listing(l.parts[1..], l.ok)
    }

    constructor (device: BlockDevice, config: Config)
      requires device.Valid() && InBounds(device.slots, |device.view|)
      requires Scannable(device.view, device.sectorSizeShift)
      ensures Valid() && dev == device && cfg == config && state == Idle
      ensures fresh(buffer) && fresh(entryBuffer)
    {
      dev, cfg, state := device, config, Idle;
      buffer, entryBuffer := new byte[0], new byte[0];
      sector, mbrEntries, numPartitionEntries, partitionIndex, mbrPartID := 0, [], 0, 0, 0;
      firstLba, tableReads, rounds := 0, [], 0;
    }

    /** The records of the boot record in the buffer. */
    method ScanMbrEntries(baseLba: nat) returns (n: nat)
      requires buffer.Length >= MBR_SIZE
      modifies this`mbrEntries
      ensures mbrEntries == Records(buffer[..], baseLba, 4) && n == |mbrEntries|
    {
      mbrEntries := [];
      for i := 0 to 4
        invariant mbrEntries == Records(buffer[..], baseLba, i)
      {
        var rec := SeenAt(buffer[..], i);
        if rec.start != 0 && rec.size != 0 {
          mbrEntries := mbrEntries + [rec.(start := (rec.start + baseLba) % U32)];
        }
      }
      n := |mbrEntries|;
    }

    ghost function FromMbr(): Listing
      requires InMbr()
      reads this, dev
    {
      MbrFrom(cfg, dev.view, dev.sectorSizeShift, mbrEntries, partitionIndex, mbrPartID, rounds)
    }

    /** The records of sector s, which is in the buffer, replace those that are left. */
    method Descend(s: nat, ghost enough: nat)
      requires Long(dev.view) && Supported(dev.sectorSizeShift) && buffer.Length >= MBR_SIZE
      requires s < |dev.view| && Exhausts(dev.view, Records(dev.view[s], s, 4), 0, enough)
      requires buffer.Length == dev.sectorSize && buffer[..] == dev.view[s]
      modifies this`mbrEntries, this`numPartitionEntries, this`partitionIndex, this`rounds
      ensures InMbr() && rounds == enough && partitionIndex == 0 && mbrEntries == Records(dev.view[s], s, 4)
    {
      numPartitionEntries := ScanMbrEntries(s);
      partitionIndex, rounds := 0, enough;
    }

    /** One record: unreadable, extended, or a partition. */
    method MbrStep() returns (r: Option<Part>)
      requires Ready() && InMbr() && partitionIndex < numPartitionEntries
      modifies this`partitionIndex, this`numPartitionEntries, this`mbrEntries, this`mbrPartID, this`rounds
      modifies dev`medium, dev`faults, dev`rawReads, dev`rawWrites, dev`slots, dev.Parts, buffer
      ensures Ready() && InMbr() && dev.faults >= old(dev.faults) && rounds < old(rounds)
      ensures dev.faults == old(dev.faults) ==>
                old(FromMbr()) == if r.Some? then Cons(r.value, FromMbr()) else FromMbr()
    {
      var entry := mbrEntries[partitionIndex];
      partitionIndex, rounds := partitionIndex + 1, rounds - 1;
      var ok := ReadSector(dev, entry.start, buffer);
      if !ok {
        return None;
      }
      if entry.osType == OS_EXTENDED {
        Descend(entry.start, rounds);
        return None;
      }
      mbrPartID := NextId(mbrPartID);
      r := Some(MbrPart(cfg, buffer[..], entry, mbrPartID, dev.sectorSizeShift));
    }

    /** The next partition of the boot records. */
    method NextMbr() returns (r: Option<Part>)
      requires Ready() && state == Mbr && InMbr()
      modifies this`partitionIndex, this`numPartitionEntries, this`mbrEntries, this`mbrPartID, this`rounds, this`state
      modifies dev`medium, dev`faults, dev`rawReads, dev`rawWrites, dev`slots, dev.Parts, buffer
      ensures Ready() && dev.faults >= old(dev.faults)
      ensures if r.Some? then state == Mbr && InMbr() && rounds < old(rounds)
              else state == Done && partitionIndex >= numPartitionEntries
      ensures dev.faults == old(dev.faults) ==>
                if r.Some? then old(FromMbr()) == Cons(r.value, FromMbr()) else old(FromMbr()) == Listing([], true)
    {
      while partitionIndex < numPartitionEntries
        invariant Ready() && InMbr() && dev.faults >= old(dev.faults) && state == Mbr && rounds <= old(rounds)
        invariant dev.faults == old(dev.faults) ==> FromMbr() == old(FromMbr())
        decreases rounds
      {
        r := MbrStep();
        if r.Some? {
          return;
        }
      }
      state := Done;
      r := None;
    }

    ghost function FromGpt(): Listing
      requires Supported(dev.sectorSizeShift) && Uniform(dev.view, dev.sectorSize)
      reads this, dev
    {
      GptFrom(cfg, dev.view, dev.sectorSizeShift, firstLba, numPartitionEntries, partitionIndex)
    }

    /** The sector with the next entry is in the buffer, and has been read once. */
    ghost predicate AtEntry()
      reads this, dev, buffer
    {
      && Supported(dev.sectorSizeShift)
      && buffer.Length == entryBuffer.Length == dev.sectorSize && buffer != entryBuffer
      && partitionIndex < numPartitionEntries
      && ReadUpTo(firstLba, partitionIndex + 1, dev.sectorSizeShift, sector, tableReads)
      && Loaded(EntrySector(firstLba, partitionIndex, dev.sectorSizeShift))
    }

    /** Reads the next sector of the table if the next entry is its first. */
    method LoadEntries() returns (ok: bool)
      requires Ready() && InGpt() && partitionIndex < numPartitionEntries
      modifies this`sector, this`tableReads
      modifies dev`medium, dev`faults, dev`rawReads, dev`rawWrites, dev`slots, dev.Parts, buffer
      ensures Ready() && dev.faults >= old(dev.faults)
      ensures ok ==> AtEntry()
      ensures dev.faults == old(dev.faults) ==>
                (ok <==> EntrySector(firstLba, partitionIndex, dev.sectorSizeShift) < |dev.view|)
    {
      ReadOn(firstLba, partitionIndex, dev.sectorSizeShift, sector, tableReads);
      ok := true;
      if StartsSector(partitionIndex, dev.sectorSizeShift) {
        var next := Wrapped(sector, dev.sectorSizeShift);
        sector := U64(sector + 1);
        tableReads := tableReads + [next];
        ok := ReadSector(dev, next, buffer);
      }
    }

    /** Looks at the first sector of a partition whose type is not known. */
    method LookAt(entry: Entry) returns (ok: bool, found: Option<Volume>)
      requires Ready() && AtEntry() && !cfg.known(entry.typeGuid)
      modifies dev`medium, dev`faults, dev`rawReads, dev`rawWrites, dev`slots, dev.Parts, entryBuffer
      ensures Ready() && AtEntry() && dev.faults >= old(dev.faults)
      ensures dev.faults == old(dev.faults) ==> (ok <==> Wrapped(entry.start, dev.sectorSizeShift) < |dev.view|)
      ensures ok ==> Wrapped(entry.start, dev.sectorSizeShift) < |dev.view| &&
                     found == Identify(cfg, dev.view[Wrapped(entry.start, dev.sectorSizeShift)])
    {
      ok := ReadSector(dev, Wrapped(entry.start, dev.sectorSizeShift), entryBuffer);
      found := if ok then Identify(cfg, entryBuffer[..]) else None;
    }

    /** What an entry stands for: nothing if it is empty or unreadable, or else a partition. */
    method Recognise(entry: Entry) returns (r: Option<Part>)
      requires Ready() && AtEntry()
      modifies dev`medium, dev`faults, dev`rawReads, dev`rawWrites, dev`slots, dev.Parts, entryBuffer
      ensures Ready() && AtEntry() && dev.faults >= old(dev.faults)
      ensures dev.faults == old(dev.faults) ==>
                r == if Skipped(cfg, dev.view, entry, dev.sectorSizeShift) then None
                     else Some(GptPart(cfg, dev.view, entry, dev.sectorSizeShift))
    {
      var shift := dev.sectorSizeShift;
      var found: Option<Volume> := None;
      var readable := true;
      if entry.typeGuid != NO_GUID && !cfg.known(entry.typeGuid) {
        readable, found := LookAt(entry);
      }
      if entry.typeGuid == NO_GUID || !readable {
        return None;
      }
      var size := if found.Some? then found.value.size else EntrySize(entry, shift);
      r := Some(Part(EntryOffset(entry, shift), size, Info(entry.name, entry.typeGuid, entry.uniqueGuid, 0)));
    }

    /** The entry at hand. */
    method TakeEntry() returns (r: Option<Part>)
      requires Ready() && AtEntry()
      modifies this`partitionIndex
      modifies dev`medium, dev`faults, dev`rawReads, dev`rawWrites, dev`slots, dev.Parts, entryBuffer
      ensures Ready() && InGpt() && partitionIndex == old(partitionIndex) + 1 && dev.faults >= old(dev.faults)
      ensures dev.faults == old(dev.faults) ==>
                old(FromGpt()) == if r.Some? then Cons(r.value, FromGpt()) else FromGpt()
    {
      var entry := EntryIn(buffer[..], partitionIndex, dev.sectorSizeShift);
      r := Recognise(entry);
      partitionIndex := partitionIndex + 1;
    }

    /** One entry, with the sector it is in. */
    method GptStep() returns (r: Option<Part>, ok: bool)
      requires Ready() && InGpt() && partitionIndex < numPartitionEntries
      modifies this`sector, this`tableReads, this`partitionIndex
      modifies dev`medium, dev`faults, dev`rawReads, dev`rawWrites, dev`slots, dev.Parts, buffer, entryBuffer
      ensures Ready() && dev.faults >= old(dev.faults)
      ensures ok ==> InGpt() && partitionIndex == old(partitionIndex) + 1
      ensures !ok ==> r == None && partitionIndex == old(partitionIndex)
      ensures dev.faults == old(dev.faults) ==>
                old(FromGpt()) == if !ok then Listing([], false)
                                  else if r.Some? then Cons(r.value, FromGpt()) else FromGpt()
    {
      r := None;
      ok := LoadEntries();
      if ok {
        r := TakeEntry();
      }
    }

    /** The next partition of the GPT. */
    method NextGpt() returns (r: Option<Part>)
      requires Ready() && state == Gpt && InGpt()
      modifies this`sector, this`tableReads, this`partitionIndex, this`state
      modifies dev`medium, dev`faults, dev`rawReads, dev`rawWrites, dev`slots, dev.Parts, buffer, entryBuffer
      ensures Ready() && dev.faults >= old(dev.faults)
      ensures r.Some? ==> state == Gpt && InGpt() && partitionIndex > old(partitionIndex)
      ensures r == None ==> if state == Done then InGpt() && partitionIndex == numPartitionEntries
                            else state == Error && partitionIndex < numPartitionEntries
      ensures dev.faults == old(dev.faults) ==>
                if r.Some? then old(FromGpt()) == Cons(r.value, FromGpt())
                else old(FromGpt()) == Listing([], state == Done)
    {
      while partitionIndex < numPartitionEntries
        invariant Ready() && InGpt() && dev.faults >= old(dev.faults) && state == Gpt
        invariant partitionIndex >= old(partitionIndex)
        invariant dev.faults == old(dev.faults) ==> FromGpt() == old(FromGpt())
      {
        var ok;
        r, ok := GptStep();
        if !ok {
          state := Error;
          return;
        }
        if r.Some? {
          return;
        }
      }
      state := Done;
      r := None;
    }

    /** What came of looking at the first sectors: an answer, or a table to be gone through. */
    ghost predicate Started(l: Listing, r: Option<Part>, stop: bool)
      requires Valid()
      reads this, dev, dev.Parts, buffer
    {
      if stop then Answers(l, r) else (state == Mbr || state == Gpt) && Remaining() == l
    }

    /** Reads and checks the header of a GPT. */
    method LoadHeader() returns (h: Option<TableAt>)
      requires Ready() && buffer.Length == dev.sectorSize && buffer.Length >= HEADER_SIZE
      modifies dev`medium, dev`faults, dev`rawReads, dev`rawWrites, dev`slots, dev.Parts, buffer
      ensures Ready() && dev.faults >= old(dev.faults)
      ensures h.Some? ==> h.value.lba < WORD
      ensures h.Some? || dev.faults == old(dev.faults) ==> h == HeaderOf(dev.view)
    {
      h := None;
      var ok := ReadSector(dev, 1, buffer);
      if !ok {
        return;
      }
      ok := VerifyGptHeader(buffer);
      if ok {
        LbaBound(buffer[..]);
        h := Some(TableAt(EntryLbaOf(buffer[..]), NumEntriesOf(buffer[..])));
      }
    }

    /** Gets ready to go through a table. */
    method EnterGpt(h: TableAt)
      requires Ready() && partitionIndex == 0 && h.lba < WORD
      requires Supported(dev.sectorSizeShift) && buffer.Length == entryBuffer.Length == dev.sectorSize
      requires buffer != entryBuffer
      modifies this`state, this`numPartitionEntries, this`sector, this`firstLba, this`tableReads
      ensures Ready() && state == Gpt && InGpt() && firstLba == h.lba && numPartitionEntries == h.num
    {
      ReadNothing(h.lba, dev.sectorSizeShift);
      numPartitionEntries, sector := h.num, h.lba;
      firstLba, tableReads, state := h.lba, [], Gpt;
    }

    /** The header of a GPT, once the boot record has announced it. */
    method StartGpt() returns (stop: bool)
      requires Ready() && numPartitionEntries == partitionIndex == 0
      requires Supported(dev.sectorSizeShift) && buffer.Length == dev.sectorSize && buffer.Length >= HEADER_SIZE
      requires entryBuffer.Length == dev.sectorSize && buffer != entryBuffer
      modifies this`state, this`numPartitionEntries, this`sector, this`firstLba, this`tableReads
      modifies dev`medium, dev`faults, dev`rawReads, dev`rawWrites, dev`slots, dev.Parts, buffer
      ensures Ready() && dev.faults >= old(dev.faults)
      ensures stop ==> state == Error && numPartitionEntries == 0
      ensures !stop ==> state == Gpt && InGpt() && HeaderOf(dev.view) == Some(TableAt(firstLba, numPartitionEntries))
      ensures stop && dev.faults == old(dev.faults) ==> HeaderOf(dev.view) == None
    {
      var h := LoadHeader();
      stop := h == None;
      if stop {
        state := Error;
      } else {
        EnterGpt(h.value);
      }
    }

    /** Working memory of one sector each. */
    method Allocate()
      requires Ready()
      modifies this`buffer, this`entryBuffer
      ensures Ready() && fresh(buffer) && fresh(entryBuffer) && buffer != entryBuffer
      ensures buffer.Length == entryBuffer.Length == dev.sectorSize
    {
      buffer := new byte[dev.sectorSize];
      entryBuffer := new byte[dev.sectorSize];
    }

    /** Reads the first sector into fresh memory. */
    method LoadFirst() returns (ok: bool)
      requires Ready()
      modifies this`buffer, this`entryBuffer
      modifies dev`medium, dev`faults, dev`rawReads, dev`rawWrites, dev`slots, dev.Parts
      ensures Ready() && fresh(buffer) && fresh(entryBuffer) && buffer != entryBuffer
      ensures buffer.Length == entryBuffer.Length == dev.sectorSize && dev.faults >= old(dev.faults)
      ensures ok ==> |dev.view| > 0 && buffer[..] == dev.view[0]
      ensures dev.faults == old(dev.faults) ==> (ok <==> |dev.view| > 0)
    {
      Allocate();
      ok := ReadSector(dev, 0, buffer);
    }

    /** The boot record in the buffer lists the partitions itself. */
    method StartMbr()
      requires Ready() && Supported(dev.sectorSizeShift) && mbrPartID == 0
      requires |dev.view| > 0 && buffer.Length == dev.sectorSize && buffer[..] == dev.view[0]
      requires buffer.Length >= MBR_SIZE
      requires Long(dev.view) && Shallow(dev.view, 0, |dev.view|)
      modifies this`state, this`mbrEntries, this`numPartitionEntries, this`partitionIndex, this`rounds
      ensures Ready() && state == Mbr && InMbr()
      ensures FromMbr() == MbrFrom(cfg, dev.view, dev.sectorSizeShift, Records(dev.view[0], 0, 4), 0, 0,
               Rounds(dev.view, 0))
    {
      Descend(0, Rounds(dev.view, 0));
      state := Mbr;
    }

    /** Which kind of table the boot record in the buffer announces. */
    method StartTable() returns (stop: bool)
      requires Ready() && Supported(dev.sectorSizeShift) && numPartitionEntries == partitionIndex == mbrPartID == 0
      requires |dev.view| > 0 && buffer.Length == dev.sectorSize && buffer[..] == dev.view[0]
      requires buffer.Length >= MBR_SIZE
      requires entryBuffer.Length == dev.sectorSize && buffer != entryBuffer
      requires Long(dev.view) && (!Protective(dev.view[0]) ==> Shallow(dev.view, 0, |dev.view|))
      modifies this`state, this`numPartitionEntries, this`sector, this`firstLba, this`tableReads
      modifies this`mbrEntries, this`partitionIndex, this`rounds
      modifies dev`medium, dev`faults, dev`rawReads, dev`rawWrites, dev`slots, dev.Parts, buffer
      ensures Ready() && dev.faults >= old(dev.faults)
      ensures stop ==> state == Error && numPartitionEntries == partitionIndex == 0
      ensures !stop ==> (state == Mbr && InMbr()) || (state == Gpt && InGpt())
      ensures dev.faults == old(dev.faults) ==> Tabled(stop)
    {
      stop := false;
      if Protective(buffer[..]) {
        stop := StartGpt();
      } else {
        StartMbr();
      }
    }

    /** The scan goes on as it should from a boot record without a volume. */
    ghost predicate Tabled(stop: bool)
      requires |dev.view| > 0 && Long(dev.view) && Uniform(dev.view, dev.sectorSize) && Supported(dev.sectorSizeShift)
      requires !Protective(dev.view[0]) ==> Shallow(dev.view, 0, |dev.view|)
      requires !stop ==> (state == Mbr && InMbr()) || state == Gpt
      reads this, dev
    {
      if !Protective(dev.view[0]) then
        && !stop && state == Mbr
        && FromMbr() == MbrFrom(cfg, dev.view, dev.sectorSizeShift, Records(dev.view[0], 0, 4), 0, 0,
             Rounds(dev.view, 0))
      else
        if stop then HeaderOf(dev.view) == None
        else state == Gpt && partitionIndex == 0 && HeaderOf(dev.view) == Some(TableAt(firstLba, numPartitionEntries))
    }

    /** What the first sector says, if nothing is known yet. */
    method Start() returns (r: Option<Part>, stop: bool)
      requires Valid() && state == Idle
      modifies this`state, this`buffer, this`entryBuffer, this`numPartitionEntries, this`sector, this`firstLba
      modifies this`tableReads, this`mbrEntries, this`partitionIndex, this`rounds
      modifies dev`medium, dev`faults, dev`rawReads, dev`rawWrites, dev`slots, dev.Parts
      ensures Valid() && dev.faults >= old(dev.faults)
      ensures buffer == old(buffer) || fresh(buffer)
      ensures entryBuffer == old(entryBuffer) || fresh(entryBuffer)
      ensures !stop ==> r == None && (state == Mbr || state == Gpt)
      ensures stop ==> state == Idle || state == Error || state == Done
      ensures r.Some? ==> state == Done
      ensures dev.faults == old(dev.faults) ==> Started(old(Remaining()), r, stop)
    {
      r, stop := None, true;
      SupportedSizes(dev.sectorSizeShift);
      if dev.sectorSize > MAX_SECTOR_SIZE || dev.sectorSize < MIN_SECTOR_SIZE {
        state := Error;
        return;
      }
      var ok := LoadFirst();
      if !ok {
        state := Error;
        return;
      }
      var found := Identify(cfg, buffer[..]);
      if found.Some? {
        state := Done;
        r := Some(Part(0, found.value.size, Info(found.value.name, NO_GUID, NO_GUID, 0)));
        return;
      }
      if !Signed(buffer[..]) {
        return;
      }
      stop := StartTable();
    }

    ghost function Where(): Place
      reads this
    {
      match state
      case Idle => Place(2, 0)
      case Mbr => Place(1, rounds)
      case Gpt => Place(1, if partitionIndex <= numPartitionEntries then numPartitionEntries - partitionIndex else 0)
      case _ => Place(0, 0)
    }

    /** The next partition of the table the scanner is in. */
    method Continue() returns (r: Option<Part>)
      requires Valid() && state != Idle
      modifies this`sector, this`tableReads, this`partitionIndex, this`state, this`numPartitionEntries, this`mbrEntries
      modifies this`mbrPartID, this`rounds
      modifies dev`medium, dev`faults, dev`rawReads, dev`rawWrites, dev`slots, dev.Parts, buffer, entryBuffer
      ensures Valid() && state != Idle && dev.faults >= old(dev.faults)
      ensures dev.faults == old(dev.faults) ==> Answers(old(Remaining()), r)
      ensures old(state) == Gpt && state == Done ==> InGpt() && partitionIndex == numPartitionEntries
      ensures r.Some? ==> Further(old(Where()), Where())
    {
      if state == Mbr {
        r := NextMbr();
      } else if state == Gpt {
        r := NextGpt();
      } else {
        state := if partitionIndex < numPartitionEntries then Error else Done;
        r := None;
      }
    }

    /** The next partition, if any. Whether raw reads fail or not, this comes to an end, and so does calling it
        until it has no more to give. */
    method Next() returns (r: Option<Part>)
      requires Valid()
      modifies this, dev`medium, dev`faults, dev`rawReads, dev`rawWrites, dev`slots, dev.Parts, buffer, entryBuffer
      ensures Valid() && dev.faults >= old(dev.faults)
      ensures buffer == old(buffer) || fresh(buffer)
      ensures entryBuffer == old(entryBuffer) || fresh(entryBuffer)
      ensures dev.faults == old(dev.faults) ==> Answers(old(Remaining()), r)
      ensures old(state) == Gpt && state == Done ==> InGpt() && partitionIndex == numPartitionEntries
      ensures r.Some? ==> Further(old(Where()), Where())
    {
      if state == Idle {
        var stop;
        r, stop := Start();
        if stop {
          return;
        }
      }
      r := Continue();
    }
  }

  /** How far a scan has come, and how many rounds it has left there at most. */
  datatype Place = Place(phase: nat, left: nat)

  ghost predicate Further(a: Place, b: Place) {
    b.phase < a.phase || (b.phase == a.phase && b.left < a.left)
  }

  function WithName(cfg: Config, p: Part): Part {
    if p.info.name == [] && p.info.uniqueGuid != NO_GUID then p.(info := p.info.(name := cfg.text(p.info.uniqueGuid)))
    else p
  }

  function Named(cfg: Config, parts: seq<Part>): (r: seq<Part>)
    ensures |r| == |parts|
  {
    if parts == [] then [] else [WithName(cfg, parts[0])] + Named(cfg, parts[1..])
  }

  /** Naming changes nothing but the name, and that only where there is none but an
      identifier, whose text it becomes. */
  lemma {:induction false} NamedAt(cfg: Config, parts: seq<Part>, i: nat)
    requires i < |parts|
    ensures Named(cfg, parts)[i].offset == parts[i].offset && Named(cfg, parts)[i].size == parts[i].size
    ensures Named(cfg, parts)[i].info == parts[i].info.(name := Named(cfg, parts)[i].info.name)
    ensures Named(cfg, parts)[i].info.name ==
            if parts[i].info.name == [] && exists j | 0 <= j < 16 :: parts[i].info.uniqueGuid[j] != 0
            then cfg.text(parts[i].info.uniqueGuid) else parts[i].info.name
  {
    if i > 0 {
      NamedAt(cfg, parts[1..], i - 1);
    } else {
      assert parts[0].info.uniqueGuid == NO_GUID <==> forall j | 0 <= j < 16 :: parts[0].info.uniqueGuid[j] == 0;
    }
  }

  /** What is still to be added when the scanner has just answered part and has rest to come. */
  ghost function Pending(cfg: Config, part: Option<Part>, rest: seq<Part>): seq<Part> {
    if part.Some? then [WithName(cfg, part.value)] + Named(cfg, rest) else []
  }

  lemma PendingNext(cfg: Config, l: Listing, part: Option<Part>, rest: seq<Part>)
    requires if l.parts == [] then part == None else part == Some(l.parts[0]) && rest == l.parts[1..]
    ensures Named(cfg, l.parts) == Pending(cfg, part, rest)
  {
  }

  lemma PendingStep(cfg: Config, whole: seq<Part>, parts: seq<Part>, p: Part, rest: seq<Part>, l: Listing,
                    part: Option<Part>,
                    rest': seq<Part>)
    requires whole == parts + Pending(cfg, Some(p), rest) && rest == l.parts
    requires if l.parts == [] then part == None else part == Some(l.parts[0]) && rest' == l.parts[1..]
    ensures whole == (parts + [WithName(cfg, p)]) + Pending(cfg, part, rest')
  {
    PendingNext(cfg, l, part, rest');
  }

  /** Where a collection stands: unless raw reads have failed, parts and what is announced make up the whole. */
  ghost predicate Collecting(scanner: Scanner, f0: nat, whole: seq<Part>, ok: bool, parts: seq<Part>,
                             part: Option<Part>,
                             rest: seq<Part>)
    requires scanner.Valid()
    reads scanner, scanner.dev, scanner.dev.Parts, scanner.buffer
  {
    && scanner.dev.faults >= f0
    && (scanner.dev.faults == f0 ==>
          && whole == parts + Pending(scanner.cfg, part, rest)
          && (if part.Some? then scanner.Remaining() == Listing(rest, ok) else (scanner.state == Error <==> !ok)))
  }

  /** One partition more. */
  method CollectNext(scanner: Scanner, parts: seq<Part>, p: Part, ghost f0: nat, ghost whole: seq<Part>, ghost ok: bool,
                     ghost rest: seq<Part>)
    returns (parts': seq<Part>, part: Option<Part>, ghost rest': seq<Part>)
    requires scanner.Valid() && Collecting(scanner, f0, whole, ok, parts, Some(p), rest)
    modifies scanner, scanner.dev`medium, scanner.dev`faults, scanner.dev`rawReads, scanner.dev`rawWrites
    modifies scanner.dev`slots, scanner.dev.Parts, scanner.buffer, scanner.entryBuffer
    ensures scanner.Valid() && Collecting(scanner, f0, whole, ok, parts', part, rest')
    ensures scanner.buffer == old(scanner.buffer) || fresh(scanner.buffer)
    ensures scanner.entryBuffer == old(scanner.entryBuffer) || fresh(scanner.entryBuffer)
    ensures part.Some? ==> Further(old(scanner.Where()), scanner.Where())
  {
    parts' := parts + [WithName(scanner.cfg, p)];
    part := scanner.Next();
    rest' := if part.Some? then scanner.Remaining().parts else [];
    if scanner.dev.faults == f0 {
      PendingStep(scanner.cfg, whole, parts, p, rest, Listing(rest, ok), part, rest');
    }
  }

  /** Asks for one partition after another. */
  method Collect(scanner: Scanner) returns (parts: seq<Part>, ok: bool)
    requires scanner.Valid()
    modifies scanner, scanner.dev`medium, scanner.dev`faults, scanner.dev`rawReads, scanner.dev`rawWrites
    modifies scanner.dev`slots, scanner.dev.Parts, scanner.buffer, scanner.entryBuffer
    ensures scanner.Valid() && scanner.dev.faults >= old(scanner.dev.faults)
    ensures scanner.dev.faults == old(scanner.dev.faults) ==>
              parts == Named(scanner.cfg, old(scanner.Remaining()).parts) && ok == old(scanner.Remaining()).ok
  {
    ghost var l, f0 := scanner.Remaining(), scanner.dev.faults;
    ghost var whole := Named(scanner.cfg, l.parts);
    parts := [];
    var part := scanner.Next();
    ghost var rest := if part.Some? then scanner.Remaining().parts else [];
    if scanner.dev.faults == f0 {
      PendingNext(scanner.cfg, l, part, rest);
    }
    while part.Some?
      invariant scanner.Valid() && Collecting(scanner, f0, whole, l.ok, parts, part, rest)
      invariant scanner.buffer == old(scanner.buffer) || fresh(scanner.buffer)
      invariant scanner.entryBuffer == old(scanner.entryBuffer) || fresh(scanner.entryBuffer)
      decreases part.Some?, scanner.Where().phase, scanner.Where().left
    {
      parts, part, rest := CollectNext(scanner, parts, part.value, f0, whole, l.ok, rest);
    }
    ok := scanner.state != Error;
  }

  /** Goes through all partitions of a device. Those without a name are named after their unique GUID. */
  method ScanPartitions(dev: BlockDevice, cfg: Config) returns (parts: seq<Part>, ok: bool)
    requires dev.Valid() && InBounds(dev.slots, |dev.view|) && Scannable(dev.view, dev.sectorSizeShift)
    modifies dev`medium, dev`faults, dev`rawReads, dev`rawWrites, dev`slots, dev.Parts
    ensures dev.Valid() && dev.faults >= old(dev.faults)
    ensures dev.faults == old(dev.faults) ==>
              var l := Scan(cfg, dev.view, dev.sectorSizeShift);
              parts == Named(cfg, l.parts) && ok == l.ok
  {
    var scanner := new Scanner(dev, cfg);
    parts, ok := Collect(scanner);
  }
}
