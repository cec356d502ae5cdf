/** Byte-level access to a device that transfers whole sectors and may fail. */
module BlockDevices {
  import opened Bits
  import opened Bytes
  import opened Sectors
  import opened Buffers
  import opened Cache
  import opened Transfers

  class BlockDevice {
    const sectorSizeShift: nat
    const sectorSize: nat := Pow2(sectorSizeShift)
    // True when a failing raw write leaves each sector either as it was or fully written.
    const atomicWrites: bool

    // The raw medium, the buffers of the cache (none when buffering is off) and log2 of their number.
    var medium: seq<Sector>
    var buffers: seq<Buffer>
    var bits: nat

    // The logical contents, and for each sector the values they have had since the last successful sync.
    ghost var view: seq<Sector>
    ghost var past: seq<set<Sector>>
    // The state of the buffers, and the objects that hold it.
    ghost var slots: seq<Slot>
    ghost var Parts: set<object>
    // Raw transfers that failed although they were in range, and raw sectors transferred so far.
    ghost var faults: nat
    ghost var rawReads: nat
    ghost var rawWrites: nat
    // Raw syncs so far, and how many raw sectors had been written at the last one.
    ghost var rawSyncs: nat
    ghost var syncedWrites: nat

    /** Buffer k holds what slots[k] says. */
    ghost predicate Mirrors(k: nat)
      requires k < |buffers| == |slots|
      reads this, buffers[k], buffers[k].data
    {
      slots[k] == Slot(buffers[k].sector, buffers[k].dirty, buffers[k].data[..])
    }

    ghost predicate Shape()
      reads this, Parts
    {
      && this !in Parts
      && |slots| == |buffers|
      && (buffers == [] || |buffers| == Pow2(bits))
      && (forall k | 0 <= k < |buffers| ::
            buffers[k] in Parts && buffers[k].data in Parts && buffers[k].data.Length == sectorSize && Mirrors(k))
      && (forall j, k | 0 <= j < k < |buffers| :: buffers[j] != buffers[k] && buffers[j].data != buffers[k].data)
    }

    ghost predicate Valid()
      reads this, Parts
    {
      && Uniform(medium, sectorSize) && Uniform(view, sectorSize)
      && Shape()
      && Coherent(slots, bits, medium, view)
      && Recorded(medium, view, past, atomicWrites)
    }

    constructor (shift: nat, contents: seq<Sector>, atomic: bool)
      requires Uniform(contents, Pow2(shift)) && |contents| <= INVALID
      ensures Valid() && fresh(Parts) && buffers == [] && faults == 0
      ensures medium == view == contents && past == Fresh(contents)
      ensures sectorSizeShift == shift && atomicWrites == atomic
    {
      sectorSizeShift, atomicWrites := shift, atomic;
      medium, buffers, bits := contents, [], 0;
      view, past, slots, Parts := contents, Fresh(contents), [], {};
      faults, rawReads, rawWrites, rawSyncs, syncedWrites := 0, 0, 0, 0, 0;
    }

    method RawSectorWrite(sector: nat, src: seq<Sector>) returns (ok: bool)
      requires Uniform(src, sectorSize) && Uniform(medium, sectorSize)
      modifies this`medium, this`faults, this`rawWrites
      ensures Uniform(medium, sectorSize) && |medium| == old(|medium|)
      ensures ok ==> sector + |src| <= |medium| && medium == Replace(old(medium), sector, src) && faults == old(faults)
      ensures !ok ==> Torn(old(medium), medium, sector, src, atomicWrites)
      ensures !ok && sector + |src| <= |medium| ==> faults == old(faults) + 1
      ensures sector + |src| > |medium| ==> faults == old(faults) && medium == old(medium)
      ensures rawWrites == old(rawWrites) + |src|
    {
      rawWrites := rawWrites + |src|;
      if sector + |src| > |medium| {
        return false;
      } else if * {
        faults := faults + 1;
        return false;
      }
      medium := Replace(medium, sector, src);
      ok := true;
    }

    method RawSectorRead(sector: nat, dst: array<byte>, count: nat) returns (ok: bool)
      requires count * sectorSize <= dst.Length && Uniform(medium, sectorSize)
      modifies this`faults, this`rawReads, dst
      ensures ok ==> sector + count <= |medium| && faults == old(faults)
      ensures ok ==> dst[..count * sectorSize] == Flat(medium[sector..sector + count])
      ensures Kept(old(dst[..]), dst[..], count * sectorSize)
      ensures !ok && sector + count <= |medium| ==> faults == old(faults) + 1
      ensures sector + count > |medium| ==> faults == old(faults)
      ensures rawReads == old(rawReads) + count
    {
      rawReads := rawReads + count;
      if sector + count > |medium| {
        return false;
      } else if * {
        faults := faults + 1;
        return false;
      }
      var bytes := Flat(medium[sector..sector + count]);
      FlatLength(medium[sector..sector + count], sectorSize);
      forall i | 0 <= i < |bytes| {
        dst[i] := bytes[i];
      }
      ok := true;
    }

    method RawSectorEraseRange(sector: nat, count: nat) returns (ok: bool)
      requires Uniform(medium, sectorSize)
      modifies this`medium, this`faults
      ensures Uniform(medium, sectorSize) && |medium| == old(|medium|)
      ensures ok ==> sector + count <= |medium| && faults == old(faults)
      ensures ok ==> medium == Replace(old(medium), sector, Blank(count, sectorSize))
      ensures !ok ==> Torn(old(medium), medium, sector, Blank(count, sectorSize), atomicWrites)
      ensures !ok && sector + count <= |medium| ==> faults == old(faults) + 1
      ensures sector + count > |medium| ==> faults == old(faults) && medium == old(medium)
    {
      if sector + count > |medium| {
        return false;
      } else if * {
        faults := faults + 1;
        return false;
      }
      medium := Replace(medium, sector, Blank(count, sectorSize));
      ok := true;
    }

    method RawSync() returns (ok: bool)
      modifies this`faults, this`rawSyncs, this`syncedWrites
      ensures faults == old(faults) + if ok then 0 else 1
      ensures rawSyncs == old(rawSyncs) + 1 && syncedWrites == rawWrites
    {
      rawSyncs, syncedWrites := rawSyncs + 1, rawWrites;
      if * {
        faults := faults + 1;
        return false;
      }
      ok := true;
    }

    method FlushBuffer(buf: Buffer, ghost k: nat) returns (ok: bool)
      requires Valid() && k < |buffers| && buf == buffers[k]
      modifies this`medium, this`faults, this`rawWrites, this`slots, buf`dirty
      ensures Valid() && |medium| == old(|medium|)
      ensures slots == old(slots)[k := old(slots)[k].(dirty := !ok)]
      ensures !ok ==> old(buf.dirty)
      ensures !ok && faults == old(faults) ==> buf.sector >= |medium|
      ensures ok ==> faults == old(faults)
      ensures faults >= old(faults)
      ensures rawWrites <= old(rawWrites) + (if old(buf.dirty) then 1 else 0)
    {
      assert Mirrors(k);
      if !buf.dirty {
        return true;
      }
      ok := RawSectorWrite(buf.sector, [buf.data[..]]);
      FlushKeeps(slots, bits, old(medium), view, k, medium, ok);
      FlushRecorded(old(medium), view, past, atomicWrites, buf.sector, buf.data[..], medium);
      if !ok {
        return;
      }
      buf.dirty := false;
      slots := slots[k := slots[k].(dirty := false)];
    }

    /** Read a sector into a clean buffer that holds something else. */
    method Fill(buf: Buffer, ghost k: nat, sector: nat) returns (ok: bool)
      requires Valid() && k < |buffers| && buf == buffers[k] && !buf.dirty
      requires Mask(sector, bits) == k && buf.sector != sector
      modifies this`faults, this`rawReads, this`slots, buf, buf.data
      ensures Valid()
      ensures |slots| == |old(slots)| && slots == old(slots)[k := slots[k]] && !slots[k].dirty
      ensures ok ==> sector < |medium| && slots[k] == Slot(sector, false, view[sector]) && faults == old(faults)
      ensures !ok && faults == old(faults) ==> sector >= |medium|
      ensures faults >= old(faults) && rawReads == old(rawReads) + 1
    {
      assert Mirrors(k);
      buf.Invalidate();
      ok := RawSectorRead(sector, buf.data, 1);
      if !ok {
        InvalidateKeeps(slots, bits, medium, view, k, buf.data[..]);
        slots := slots[k := Slot(INVALID, false, buf.data[..])];
        return;
      }
      assert medium[sector..sector + 1] == [medium[sector]];
      assert buf.data[..] == medium[sector];
      LoadKeeps(slots, bits, medium, view, k, sector);
      buf.sector := sector;
      slots := slots[k := Slot(sector, false, buf.data[..])];
    }

    /** The miss path: write the buffer's old sector back, then read the wanted one in. */
    method Load(buf: Buffer, ghost k: nat, sector: nat) returns (ok: bool)
      requires Valid() && k < |buffers| && buf == buffers[k]
      requires Mask(sector, bits) == k && buf.sector != sector
      modifies this`medium, this`faults, this`rawReads, this`rawWrites, this`slots, buf, buf.data
      ensures Valid() && |medium| == old(|medium|)
      ensures |slots| == |old(slots)| && slots == old(slots)[k := slots[k]]
      ensures slots[k].dirty ==> old(slots)[k].dirty && slots[k].sector == old(slots)[k].sector
      ensures ok ==> sector < |medium| && slots[k] == Slot(sector, false, view[sector]) && faults == old(faults)
      ensures !ok && faults == old(faults) ==> sector >= |medium| || (slots[k].dirty && slots[k].sector >= |medium|)
      ensures faults >= old(faults)
      ensures rawReads <= old(rawReads) + 1 && rawWrites <= old(rawWrites) + 1
    {
      assert Mirrors(k);
      ok := FlushBuffer(buf, k);
      assert Mirrors(k);
      if ok {
        ok := Fill(buf, k, sector);
      }
    }

    /** The buffer of sector s holds it. */
    ghost predicate Holds(s: nat)
      requires Shape()
      reads this, Parts
    {
      buffers != [] && slots[Mask(s, bits)].sector == s
    }

    static method CopyBytes(src: array<byte>, from: nat, dst: array<byte>, to: nat, n: nat)
      requires src != dst && from + n <= src.Length && to + n <= dst.Length
      modifies dst
      ensures dst[..] == Patch(old(dst[..]), to, src[from..from + n])
    {
      forall i | 0 <= i < n {
        dst[to + i] := src[from + i];
      }
      assert dst[..] == Patch(old(dst[..]), to, src[from..from + n]);
    }

    method ReadChunk(sector: nat, offset: nat, dst: array<byte>, pos: nat, chunk: nat) returns (ok: bool)
      requires Valid() && buffers != [] && dst !in Parts
      requires offset + chunk <= sectorSize && pos + chunk <= dst.Length
      modifies this`medium, this`faults, this`rawReads, this`rawWrites, this`slots, Parts, dst
      ensures Valid() && |medium| == old(|medium|)
      ensures ok ==> Holds(sector) && faults == old(faults)
      ensures ok && sector < |medium| ==> dst[..] == Patch(old(dst[..]), pos, view[sector][offset..offset + chunk])
      ensures Kept(old(dst[..]), dst[..], pos + chunk)
      ensures InBounds(old(slots), |medium|) ==> InBounds(slots, |medium|)
      ensures InBounds(old(slots), |medium|) && sector < |medium| && faults == old(faults) ==> ok
      ensures InBounds(old(slots), |medium|) && ok && sector != INVALID ==> sector < |medium|
      ensures faults >= old(faults)
      ensures rawReads <= old(rawReads) + 1 && rawWrites <= old(rawWrites) + 1
      ensures old(Holds(sector)) ==> ok && rawReads == old(rawReads) && rawWrites == old(rawWrites)
    {
      var k := Mask(sector, bits);
      var buf := buffers[k];
      assert Mirrors(k);
      if buf.sector != sector {
        ok := Load(buf, k, sector);
        if !ok {
          return;
        }
      }
      assert Mirrors(k);
      assert SlotOk(slots[k], k, bits, medium, view);
      CopyBytes(buf.data, offset, dst, pos, chunk);
      ok := true;
    }

    method Read(address: nat, dst: array<byte>, size: nat) returns (ok: bool)
      requires Valid() && size <= dst.Length && dst !in Parts
      modifies this`medium, this`faults, this`rawReads, this`rawWrites, this`slots, Parts, dst
      ensures Valid() && |medium| == old(|medium|)
      ensures ok && address + size <= |Flat(view)| ==> dst[..size] == Flat(view)[address..address + size]
      ensures Kept(old(dst[..]), dst[..], size)
      ensures InBounds(old(slots), |medium|) ==> InBounds(slots, |medium|)
      ensures InBounds(old(slots), |medium|) && address + size <= |Flat(view)| && faults == old(faults) ==>
                (ok <==> buffers != [] || Whole(address, size, sectorSizeShift))
      ensures InBounds(old(slots), |medium|) && ok && size > 0 && address + size <= INVALID * sectorSize ==>
                address + size <= |Flat(view)|
      ensures faults >= old(faults) && (ok ==> faults == old(faults))
      ensures rawReads <= old(rawReads) + Spanned(Mask(address, sectorSizeShift), size, sectorSize)
      ensures rawWrites <= old(rawWrites) + Spanned(Mask(address, sectorSizeShift), size, sectorSize)
      ensures ok && size > 0 && buffers != [] && address + size <= INVALID * sectorSize ==>
                Holds(Shift(address + size - 1, sectorSizeShift))
      ensures OneHeld(old(slots), address, size, sectorSizeShift) ==>
                ok && rawReads == old(rawReads) && rawWrites == old(rawWrites)
    {
      if buffers == [] {
        ok := ReadDirect(address, dst, size);
      } else {
        ghost var last;
        ok, last := ReadBuffered(address, dst, size);
        if ok && size > 0 && address + size <= INVALID * sectorSize {
          LastHeld(slots, bits, medium, view, address, size, last, sectorSizeShift);
        }
      }
    }

    method ReadBuffered(address: nat, dst: array<byte>, size: nat) returns (ok: bool, ghost last: nat)
      requires Valid() && buffers != [] && size <= dst.Length && dst !in Parts
      modifies this`medium, this`faults, this`rawReads, this`rawWrites, this`slots, Parts, dst
      ensures Valid() && |medium| == old(|medium|)
      ensures ok && address + size <= |Flat(view)| ==> dst[..size] == Flat(view)[address..address + size]
      ensures Kept(old(dst[..]), dst[..], size)
      ensures InBounds(old(slots), |medium|) ==> InBounds(slots, |medium|)
      ensures InBounds(old(slots), |medium|) && address + size <= |Flat(view)| && faults == old(faults) ==> ok
      ensures faults >= old(faults) && (ok ==> faults == old(faults))
      ensures rawReads <= old(rawReads) + Spanned(Mask(address, sectorSizeShift), size, sectorSize)
      ensures rawWrites <= old(rawWrites) + Spanned(Mask(address, sectorSizeShift), size, sectorSize)
      ensures ok && size > 0 ==> Resident(slots, last) && LiesIn(address + size - 1, last, sectorSize)
      ensures OneHeld(old(slots), address, size, sectorSizeShift) ==>
                ok && rawReads == old(rawReads) && rawWrites == old(rawWrites)
    {
      var sector, offset := Shift(address, sectorSizeShift), Mask(address, sectorSizeShift);
      ghost var t := Transfer(address, size, sector, offset, rawReads, rawWrites, InBounds(slots, |medium|),
                              OneHeld(slots, address, size, sectorSizeShift), false);
      ProgressStart(t, slots, |medium|, sectorSizeShift);
      var done, at, rest;
      ok, done, at, rest := ReadLoop(t, dst, size, sector, offset, dst[..]);
      ProgressEnd(t, slots, |medium|, rawReads, rawWrites, done, at, rest, sectorSizeShift, ok);
      if ok {
        ReadAll(Flat(view), address, size, dst[..]);
      }
      last := if at > 0 then at - 1 else 0;
    }

    method ReadDirect(address: nat, dst: array<byte>, size: nat) returns (ok: bool)
      requires Valid() && buffers == [] && size <= dst.Length && dst !in Parts
      modifies this`faults, this`rawReads, dst
      ensures Valid()
      ensures ok && address + size <= |Flat(view)| ==> dst[..size] == Flat(view)[address..address + size]
      ensures Kept(old(dst[..]), dst[..], size)
      ensures address + size <= |Flat(view)| && faults == old(faults) ==>
                (ok <==> Whole(address, size, sectorSizeShift))
      ensures ok ==> address + size <= |Flat(view)|
      ensures faults >= old(faults) && (ok ==> faults == old(faults))
      ensures rawReads <= old(rawReads) + Spanned(Mask(address, sectorSizeShift), size, sectorSize)
    {
      if !Whole(address, size, sectorSizeShift) {
        return false;
      }
      var sector, count := Shift(address, sectorSizeShift), Shift(size, sectorSizeShift);
      AlignedEnds(address, size, sectorSizeShift);
      AlignedSpan(count, sectorSize);
      AlignedRun(view, address, size, sectorSize, sector, count);
      CleanMeansFlushed(slots, bits, medium, view);
      ok := RawSectorRead(sector, dst, count);
    }

    /** How far transfer t, a read into what held before, has come. */
    ghost predicate Fetched(t: Transfer, dst: array<byte>, before: seq<byte>, done: nat, at: nat, offset: nat, ok: bool)
      reads this, dst
    {
      ReadProgress(t, slots, view, rawReads, rawWrites, before, dst[..], done, at, offset, sectorSize, ok)
    }

    /** The read loop, from byte first of sector start on. */
    method ReadLoop(ghost t: Transfer, dst: array<byte>, size: nat, start: nat, first: nat, ghost before: seq<byte>)
      returns (ok: bool, done: nat, at: nat, offset: nat)
      requires Valid() && buffers != [] && size == t.size <= dst.Length && dst !in Parts && !t.whole
      requires Fetched(t, dst, before, 0, start, first, true)
      modifies this`medium, this`faults, this`rawReads, this`rawWrites, this`slots, Parts, dst
      ensures Valid() && |medium| == old(|medium|) && Fetched(t, dst, before, done, at, offset, ok)
      ensures ok <==> done == size
      ensures t.inside && t.address + size <= |Flat(view)| && faults == old(faults) ==> ok
      ensures faults >= old(faults) && (ok ==> faults == old(faults))
    {
      done, at, offset := 0, start, first;
      while done != size
        invariant Valid() && Fetched(t, dst, before, done, at, offset, true)
        invariant faults == old(faults)
      {
        var chunk := Min(size - done, sectorSize - offset);
        ok := ReadNext(t, dst, size, done, at, offset, chunk, before);
        if !ok {
          return;
        }
        done := done + chunk;
        at, offset := at + 1, 0;
      }
      ok := true;
    }

    /** One step of the read loop: the next chunk lands behind the bytes read so far. */
    method ReadNext(ghost t: Transfer, dst: array<byte>, ghost size: nat, done: nat, sector: nat, offset: nat,
                    chunk: nat, ghost before: seq<byte>)
      returns (ok: bool)
      requires Valid() && buffers != [] && size == t.size <= dst.Length && dst !in Parts && !t.whole
      requires Fetched(t, dst, before, done, sector, offset, true)
      requires done < size && chunk == Min(size - done, sectorSize - offset)
      modifies this`medium, this`faults, this`rawReads, this`rawWrites, this`slots, Parts, dst
      ensures Valid() && |medium| == old(|medium|)
      ensures if ok then Fetched(t, dst, before, done + chunk, sector + 1, 0, true)
              else Fetched(t, dst, before, done, sector, offset, false)
      ensures t.inside && t.address + size <= |Flat(view)| && faults == old(faults) ==> ok
      ensures faults >= old(faults) && (ok ==> faults == old(faults))
    {
      ReadAhead(t, slots, bits, medium, view, rawReads, rawWrites, done, sector, offset, sectorSize);
      ok := ReadChunk(sector, offset, dst, done, chunk);
      ReadBehind(t, old(slots), slots, view, old(rawReads), rawReads, old(rawWrites), rawWrites,
                 before, old(dst[..]), dst[..], done, sector, offset, sectorSize, chunk, ok);
    }

    /** The logical contents become v; every sector's new value goes on record. */
    ghost method Advance(v: seq<Sector>)
      requires Shape() && Uniform(medium, sectorSize) && Uniform(v, sectorSize)
      requires Coherent(slots, bits, medium, v) && |past| == |v|
      requires atomicWrites ==> forall s | 0 <= s < |v| :: medium[s] in past[s] || medium[s] == v[s]
      modifies this`view, this`past
      ensures Valid() && view == v && PastPlus(old(past), v, past)
    {
      view := v;
      past := Extended(past, v);
    }

    /** The tail of a chunk write: tag the buffer, copy the bytes in and mark it dirty. */
    method Store(buf: Buffer, ghost k: nat, sector: nat, offset: nat, src: seq<byte>)
      requires Valid() && k < |buffers| && buf == buffers[k]
      requires sector < INVALID && Mask(sector, bits) == k && offset + |src| <= sectorSize
      requires buf.sector == sector || (!buf.dirty && offset == 0 && |src| == sectorSize)
      modifies this`view, this`past, this`slots, buf, buf.data
      ensures Valid()
      ensures |slots| == |old(slots)| && slots == old(slots)[k := slots[k]]
      ensures slots[k].sector == sector && slots[k].dirty
      ensures view == if sector < |old(view)| then old(view)[sector := Patch(old(view)[sector], offset, src)]
                      else old(view)
      ensures PastPlus(old(past), view, past)
    {
      assert Mirrors(k);
      assert SlotOk(slots[k], k, bits, medium, view);
      ghost var bytes := buf.data[..];
      buf.Put(sector, offset, src);
      assert sector < |view| ==> buf.data[..] == Patch(view[sector], offset, src);
      ClaimKeeps(slots, bits, medium, view, k, Slot(sector, true, buf.data[..]));
      slots := slots[k := Slot(sector, true, buf.data[..])];
      Advance(if sector < |view| then view[sector := buf.data[..]] else view);
    }

    method WriteChunk(sector: nat, offset: nat, src: seq<byte>) returns (ok: bool)
      requires Valid() && buffers != [] && sector < INVALID
      requires 0 < |src| && offset + |src| <= sectorSize
      modifies this`medium, this`faults, this`rawReads, this`rawWrites, this`slots, this`view, this`past, Parts
      ensures Valid() && |medium| == old(|medium|)
      ensures ok ==> Holds(sector) && slots[Mask(sector, bits)].dirty && faults == old(faults)
      ensures view == if ok && sector < |old(view)| then old(view)[sector := Patch(old(view)[sector], offset, src)]
                      else old(view)
      ensures PastPlus(old(past), view, past)
      ensures InBounds(old(slots), |medium|) && (!ok || sector < |medium|) ==> InBounds(slots, |medium|)
      ensures InBounds(old(slots), |medium|) && faults == old(faults) ==>
                (ok <==> sector < |medium| || |src| == sectorSize || old(Holds(sector)))
      ensures faults >= old(faults)
      ensures rawReads <= old(rawReads) + 1 && rawWrites <= old(rawWrites) + 1
      ensures |src| == sectorSize ==> rawReads == old(rawReads)
      ensures old(Holds(sector)) ==> ok && rawReads == old(rawReads) && rawWrites == old(rawWrites)
    {
      var k := Mask(sector, bits);
      var buf := buffers[k];
      assert Mirrors(k);
      PastSame(past, view);
      if buf.sector != sector {
        ok := Claim(buf, k, sector, offset == 0 && |src| == sectorSize);
        if !ok {
          return;
        }
      }
      assert Mirrors(k);
      Store(buf, k, sector, offset, src);
      ok := true;
    }

    /** The miss path of a write: only a sector that is not overwritten as a whole has to be read. */
    method Claim(buf: Buffer, ghost k: nat, sector: nat, whole: bool) returns (ok: bool)
      requires Valid() && k < |buffers| && buf == buffers[k]
      requires sector < INVALID && Mask(sector, bits) == k && buf.sector != sector
      modifies this`medium, this`faults, this`rawReads, this`rawWrites, this`slots, buf, buf.data
      ensures Valid() && |medium| == old(|medium|)
      ensures |slots| == |old(slots)| && slots == old(slots)[k := slots[k]]
      ensures ok ==> !slots[k].dirty && (whole || slots[k].sector == sector) && faults == old(faults)
      ensures InBounds(old(slots), |medium|) ==> InBounds(slots, |medium|)
      ensures InBounds(old(slots), |medium|) && faults == old(faults) ==> (ok <==> sector < |medium| || whole)
      ensures faults >= old(faults)
      ensures rawReads <= old(rawReads) + 1 && rawWrites <= old(rawWrites) + 1
      ensures whole ==> rawReads == old(rawReads)
    {
      assert Mirrors(k);
      if whole {
        ok := FlushBuffer(buf, k);
      } else {
        ok := Load(buf, k, sector);
      }
    }

    method Write(address: nat, src: seq<byte>) returns (ok: bool, ghost done: nat)
      requires Valid() && address + |src| <= INVALID * sectorSize
      modifies this`medium, this`faults, this`rawReads, this`rawWrites, this`slots, this`view, this`past, Parts
      ensures Valid() && |medium| == old(|medium|)
      ensures buffers != [] || ok ==> done <= |src| && Flat(view) == Overlay(Flat(old(view)), address, src[..done])
      ensures ok ==> done == |src|
      ensures buffers != [] && !ok && done > 0 ==> Mask(address + done, sectorSizeShift) == 0
      ensures buffers == [] && !Whole(address, |src|, sectorSizeShift) ==> !ok && view == old(view)
      ensures buffers == [] ==>
                SameOutside(old(view), view, Shift(address, sectorSizeShift), Shift(|src|, sectorSizeShift))
      ensures PastPlus(old(past), view, past)
      ensures InBounds(old(slots), |medium|) && address + |src| <= |Flat(old(view))| ==> InBounds(slots, |medium|)
      ensures InBounds(old(slots), |medium|) && address + |src| <= |Flat(old(view))| && faults == old(faults) ==>
                (ok <==> buffers != [] || Whole(address, |src|, sectorSizeShift))
      ensures faults >= old(faults) && (ok ==> faults == old(faults))
      ensures rawReads <= old(rawReads) + Spanned(Mask(address, sectorSizeShift), |src|, sectorSize)
      ensures rawWrites <= old(rawWrites) + Spanned(Mask(address, sectorSizeShift), |src|, sectorSize)
      ensures Whole(address, |src|, sectorSizeShift) ==> rawReads == old(rawReads)
      ensures ok && |src| > 0 && buffers != [] ==> Holds(Shift(address + |src| - 1, sectorSizeShift))
      ensures OneHeld(old(slots), address, |src|, sectorSizeShift) ==>
                ok && rawReads == old(rawReads) && rawWrites == old(rawWrites)
    {
      if buffers == [] {
        done := |src|;
        ok := WriteDirect(address, src);
      } else {
        ghost var last;
        ok, done, last := WriteBuffered(address, src);
        if ok && |src| > 0 {
          LastHeld(slots, bits, medium, view, address, |src|, last, sectorSizeShift);
        }
      }
    }

    method WriteBuffered(address: nat, src: seq<byte>) returns (ok: bool, ghost done: nat, ghost last: nat)
      requires Valid() && buffers != [] && address + |src| <= INVALID * sectorSize
      modifies this`medium, this`faults, this`rawReads, this`rawWrites, this`slots, this`view, this`past, Parts
      ensures Valid() && |medium| == old(|medium|)
      ensures done <= |src| && Flat(view) == Overlay(Flat(old(view)), address, src[..done])
      ensures if ok then done == |src| else done > 0 ==> Mask(address + done, sectorSizeShift) == 0
      ensures PastPlus(old(past), view, past)
      ensures InBounds(old(slots), |medium|) && address + |src| <= |Flat(old(view))| ==> InBounds(slots, |medium|)
      ensures InBounds(old(slots), |medium|) && address + |src| <= |Flat(old(view))| && faults == old(faults) ==> ok
      ensures faults >= old(faults) && (ok ==> faults == old(faults))
      ensures rawReads <= old(rawReads) + Spanned(Mask(address, sectorSizeShift), |src|, sectorSize)
      ensures rawWrites <= old(rawWrites) + Spanned(Mask(address, sectorSizeShift), |src|, sectorSize)
      ensures Whole(address, |src|, sectorSizeShift) ==> rawReads == old(rawReads)
      ensures ok && |src| > 0 ==> Resident(slots, last) && LiesIn(address + |src| - 1, last, sectorSize)
      ensures OneHeld(old(slots), address, |src|, sectorSizeShift) ==>
                ok && rawReads == old(rawReads) && rawWrites == old(rawWrites)
    {
      var sector, offset := Shift(address, sectorSizeShift), Mask(address, sectorSizeShift);
      ghost var t := Transfer(address, |src|, sector, offset, rawReads, rawWrites,
                              InBounds(slots, |medium|) && address + |src| <= |Flat(view)|,
                              OneHeld(slots, address, |src|, sectorSizeShift), Whole(address, |src|, sectorSizeShift));
      ghost var w := Writing(t, src, sector + Shift(|src|, sectorSizeShift), view, past);
      ProgressStart(t, slots, |medium|, sectorSizeShift);
      WriteStart(w, sectorSizeShift);
      WroteNothing(view, past, address, src, sector);
      var written, at, rest;
      ok, written, at, rest := WriteLoop(w, src, sector, offset);
      done := written;
      ProgressEnd(t, slots, |medium|, rawReads, rawWrites, done, at, rest, sectorSizeShift, ok);
      last := if at > 0 then at - 1 else 0;
    }

    method WriteDirect(address: nat, src: seq<byte>) returns (ok: bool)
      requires Valid() && buffers == []
      modifies this`medium, this`faults, this`rawWrites, this`view, this`past
      ensures Valid() && |medium| == old(|medium|)
      ensures ok ==> Flat(view) == Overlay(Flat(old(view)), address, src)
      ensures !Whole(address, |src|, sectorSizeShift) ==> !ok && view == old(view)
      ensures SameOutside(old(view), view, Shift(address, sectorSizeShift), Shift(|src|, sectorSizeShift))
      ensures PastPlus(old(past), view, past)
      ensures address + |src| <= |Flat(old(view))| && faults == old(faults) ==>
                (ok <==> Whole(address, |src|, sectorSizeShift))
      ensures faults >= old(faults) && (ok ==> faults == old(faults))
      ensures rawWrites <= old(rawWrites) + Spanned(Mask(address, sectorSizeShift), |src|, sectorSize)
    {
      if !Whole(address, |src|, sectorSizeShift) {
        Advance(view);
        return false;
      }
      var sector, count := Shift(address, sectorSizeShift), Shift(|src|, sectorSizeShift);
      AlignedEnds(address, |src|, sectorSizeShift);
      AlignedSpan(count, sectorSize);
      AlignedRun(view, address, |src|, sectorSize, sector, count);
      var chunks := Chunks(src, sectorSize, count);
      ok := WriteSectors(sector, chunks);
      if ok {
        ReplaceIsOverlay(old(view), sectorSize, sector, chunks);
      }
    }

    /** Whole sectors go straight to the medium when there are no buffers. */
    method WriteSectors(sector: nat, src: seq<Sector>) returns (ok: bool)
      requires Valid() && buffers == [] && Uniform(src, sectorSize)
      modifies this`medium, this`faults, this`rawWrites, this`view, this`past
      ensures Valid() && |medium| == old(|medium|)
      ensures ok ==> sector + |src| <= |view| && view == Replace(old(view), sector, src) && faults == old(faults)
      ensures SameOutside(old(view), view, sector, |src|)
      ensures PastPlus(old(past), view, past)
      ensures sector + |src| <= |view| && faults == old(faults) ==> ok
      ensures faults >= old(faults) && rawWrites == old(rawWrites) + |src|
    {
      CleanMeansFlushed(slots, bits, medium, view);
      ok := RawSectorWrite(sector, src);
      Advance(medium);
    }

    /** How far write w has come. */
    ghost predicate Written(w: Writing, done: nat, at: nat, offset: nat, ok: bool)
      reads this
    {
      WriteProgress(w, slots, view, past, rawReads, rawWrites, done, at, offset, sectorSize, ok)
    }

    /** The write loop, from byte first of sector start on. */
    method WriteLoop(ghost w: Writing, src: seq<byte>, start: nat, first: nat)
      returns (ok: bool, done: nat, at: nat, offset: nat)
      requires Valid() && buffers != [] && src == w.src && Sensible(w, sectorSize)
      requires Written(w, 0, start, first, true)
      modifies this`medium, this`faults, this`rawReads, this`rawWrites, this`slots, this`view, this`past, Parts
      ensures Valid() && |medium| == old(|medium|) && Written(w, done, at, offset, ok)
      ensures ok <==> done == |src|
      ensures w.t.inside && faults == old(faults) ==> ok
      ensures faults >= old(faults) && (ok ==> faults == old(faults))
    {
      done, at, offset := 0, start, first;
      while done != |src|
        invariant Valid() && Written(w, done, at, offset, true)
        invariant faults == old(faults)
      {
        var chunk := Min(|src| - done, sectorSize - offset);
        ok := WriteNext(w, src, done, at, offset, chunk);
        if !ok {
          return;
        }
        done := done + chunk;
        at, offset := at + 1, 0;
      }
      ok := true;
    }

    /** One step of the write loop: the next chunk of src reaches the logical contents. */
    method WriteNext(ghost w: Writing, src: seq<byte>, done: nat, sector: nat, offset: nat, chunk: nat)
      returns (ok: bool)
      requires Valid() && buffers != [] && src == w.src && Sensible(w, sectorSize)
      requires Written(w, done, sector, offset, true)
      requires done < |src| && chunk == Min(|src| - done, sectorSize - offset)
      modifies this`medium, this`faults, this`rawReads, this`rawWrites, this`slots, this`view, this`past, Parts
      ensures Valid() && |medium| == old(|medium|)
      ensures if ok then Written(w, done + chunk, sector + 1, 0, true) else Written(w, done, sector, offset, false)
      ensures w.t.inside && faults == old(faults) ==> ok
      ensures faults >= old(faults) && (ok ==> faults == old(faults))
    {
      WriteAhead(w, slots, bits, medium, view, past, rawReads, rawWrites, done, sector, offset, sectorSize, chunk);
      ok := WriteChunk(sector, offset, src[done..done + chunk]);
      WriteBehind(w, old(slots), slots, old(view), view, old(past), past, old(rawReads), rawReads,
                  old(rawWrites), rawWrites, done, sector, offset, sectorSize, chunk, ok);
    }

    method EraseRange(address: nat, size: nat) returns (ok: bool)
      requires Valid()
      modifies this`medium, this`faults, this`slots, this`view, this`past, Parts
      ensures |medium| == old(|medium|)
      ensures ok ==> Valid() && Flat(view) == Overlay(Flat(old(view)), address, Zeros(size))
      ensures ok ==> PastPlus(old(past), view, past)
      ensures !ok ==> slots == old(slots) && view == old(view) && past == old(past)
      ensures !ok && medium == old(medium) ==> Valid()
      ensures !ok ==> Torn(old(medium), medium, Shift(address, sectorSizeShift),
                           Blank(Shift(size, sectorSizeShift), sectorSize), atomicWrites)
      ensures InBounds(old(slots), |medium|) ==> InBounds(slots, |medium|)
      ensures faults == old(faults) ==>
                (ok <==> Whole(address, size, sectorSizeShift) && address + size <= |Flat(old(view))|)
      ensures faults == old(faults) && !ok ==> medium == old(medium)
      ensures faults >= old(faults) && (ok ==> faults == old(faults))
    {
      if !Whole(address, size, sectorSizeShift) {
        return false;
      }
      var sector, count := Shift(address, sectorSizeShift), Shift(size, sectorSizeShift);
      EraseIsOverlay(view, address, size, sectorSizeShift);
      ok := RawSectorEraseRange(sector, count);
      if !ok {
        return;
      }
      EraseBuffers(old(medium), sector, count);
    }

    /** The buffers follow the medium after a successful raw erase. */
    method EraseBuffers(ghost before: seq<Sector>, sector: nat, count: nat)
      requires Uniform(medium, sectorSize) && Uniform(view, sectorSize) && Shape()
      requires Coherent(slots, bits, before, view) && Recorded(before, view, past, atomicWrites)
      requires sector + count <= |before| && medium == Replace(before, sector, Blank(count, sectorSize))
      modifies this`slots, this`view, this`past, Parts
      ensures Valid() && view == Replace(old(view), sector, Blank(count, sectorSize))
      ensures PastPlus(old(past), view, past)
      ensures InBounds(old(slots), |medium|) ==> InBounds(slots, |medium|)
    {
      ghost var slots0 := slots;
      ClearRange(before, sector, count);
      EraseKeeps(slots0, bits, before, view, sector, count, sectorSize);
      Advance(Replace(view, sector, Blank(count, sectorSize)));
    }

    /** The loop of an erase: zero the buffers of the erased sectors. */
    method ClearRange(ghost before: seq<Sector>, sector: nat, count: nat)
      requires Shape() && Coherent(slots, bits, before, view) && sector + count <= |view|
      modifies this`slots, Parts
      ensures Shape() && slots == Cleared(old(slots), sector, count, sectorSize)
    {
      if buffers == [] {
        return;
      }
      assert slots == Cleared(slots, sector, 0, sectorSize);
      for i := 0 to count
        invariant Shape() && slots == Cleared(old(slots), sector, i, sectorSize)
      {
        var k := Mask(sector + i, bits);
        var buf := buffers[k];
        assert Mirrors(k);
        ClearedStep(old(slots), bits, before, view, sector, i, sectorSize);
        if buf.sector == sector + i {
          buf.Clear();
          slots := slots[k := Slot(sector + i, false, Zeros(sectorSize))];
        }
      }
    }

    /** Every buffer is written back if it can be, whatever happens to the ones before it. */
    method FlushBuffers() returns (ok: bool)
      requires Valid()
      modifies this`medium, this`faults, this`rawWrites, this`slots, Parts
      ensures Valid() && |medium| == old(|medium|)
      ensures ok <==> AllClean(slots, |slots|)
      ensures ok ==> medium == view && faults == old(faults)
      ensures SlotsFlushed(old(slots), slots, |slots|, |medium|, faults - old(faults))
      ensures faults >= old(faults)
    {
      ok := true;
      for k := 0 to |buffers|
        invariant Valid() && |medium| == old(|medium|) && faults >= old(faults)
        invariant SlotsFlushed(old(slots), slots, k, |medium|, faults - old(faults))
        invariant ok <==> AllClean(slots, k)
        invariant ok ==> faults == old(faults)
      {
        assert Mirrors(k);
        ghost var slots0, faults0 := slots, faults;
        var res := FlushBuffer(buffers[k], k);
        FlushedStep(old(slots), slots0, k, |medium|, faults0 - old(faults), faults - old(faults), slots[k]);
        ok := ok && res;
      }
      if ok {
        CleanMeansFlushed(slots, bits, medium, view);
      }
    }

    method Sync() returns (ok: bool)
      requires Valid()
      modifies this`medium, this`faults, this`rawWrites, this`rawSyncs, this`syncedWrites, this`slots, this`past, Parts
      ensures Valid() && |medium| == old(|medium|)
      ensures ok ==> medium == view && past == Fresh(view) && AllClean(slots, |slots|)
      ensures rawSyncs == old(rawSyncs) + if AllClean(slots, |slots|) then 1 else 0
      ensures AllClean(slots, |slots|) ==> syncedWrites == rawWrites
      ensures !ok ==> past == old(past)
      ensures SlotsFlushed(old(slots), slots, |slots|, |medium|, faults - old(faults))
      ensures faults == old(faults) ==> (ok <==> InBounds(old(slots), |medium|))
      ensures faults >= old(faults) && (ok ==> faults == old(faults))
    {
      ok := FlushBuffers();
      FlushOutcome(old(slots), slots, bits, old(medium), medium, view, faults - old(faults));
      if ok {
        ok := RawSync();
      }
      if ok {
        past := Fresh(view);
      }
    }

    method AllocateBuffers(numBuffers: nat) returns (ok: bool)
      requires Valid()
      modifies this`medium, this`faults, this`rawWrites, this`slots, this`buffers, this`bits, this`Parts, Parts
      ensures Valid() && |medium| == old(|medium|)
      ensures fresh(Parts - old(Parts))
      ensures !AllClean(slots, |slots|) ==>
                && !ok && buffers == old(buffers)
                && SlotsFlushed(old(slots), slots, |slots|, |medium|, faults - old(faults))
      ensures AllClean(slots, |slots|) ==>
                && |buffers| == (if numBuffers == 0 then 0 else Pow2(SizeBits(numBuffers)))
                && (numBuffers > 0 ==> |buffers| <= numBuffers < 2 * |buffers|)
                && (ok <==> |buffers| == numBuffers)
      ensures faults == old(faults) ==> (AllClean(slots, |slots|) <==> InBounds(old(slots), |medium|))
      ensures AllClean(slots, |slots|) ==> faults == old(faults)
      ensures faults >= old(faults)
    {
      ok := FlushBuffers();
      FlushOutcome(old(slots), slots, bits, old(medium), medium, view, faults - old(faults));
      if !ok {
        return;
      }
      buffers, slots := [], [];
      if numBuffers == 0 {
        return true;
      }
      bits := SizeBits(numBuffers);
      SizeBitsBelow(numBuffers);
      NewBuffers();
      ok := |buffers| == numBuffers;
    }

    /** A list of 2 to the power bits empty buffers. */
    method NewBuffers()
      requires Valid() && medium == view && buffers == []
      modifies this`buffers, this`slots, this`Parts
      ensures Valid() && |buffers| == Pow2(bits)
      ensures fresh(Parts) && AllClean(slots, |slots|)
    {
      Parts := {};
      for i := 0 to Pow2(bits)
        invariant |buffers| == |slots| == i && this !in Parts && fresh(Parts)
        invariant forall k | 0 <= k < i :: buffers[k] in Parts && buffers[k].data in Parts
        invariant forall k | 0 <= k < i :: buffers[k].data.Length == sectorSize && Mirrors(k)
        invariant forall k | 0 <= k < i :: slots[k].sector == INVALID && !slots[k].dirty
        invariant forall j, k | 0 <= j < k < |buffers| :: buffers[j] != buffers[k] && buffers[j].data != buffers[k].data
      {
        var buf := new Buffer(sectorSize);
        assert forall k | 0 <= k < i :: buffers[k] != buf && buffers[k].data != buf.data;
        buffers := buffers + [buf];
        slots := slots + [Slot(INVALID, false, buf.data[..])];
        Parts := Parts + {buf, buf.data};
      }
    }
  }
}
