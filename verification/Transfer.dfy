/** A transfer of bytes through the cache, made in chunks of one sector each. */
module Transfers {
  import opened Bits
  import opened Bytes
  import opened Sectors
  import opened Buffers
  import opened Cache

  /** A transfer of size bytes from address on has moved done of them and goes on at byte o of sector s. */
  ghost predicate Cursor(address: nat, size: nat, done: nat, s: nat, o: nat, ss: nat) {
    done <= size && o < ss && (done < size ==> s * ss + o == address + done)
  }

  lemma CursorStart(address: nat, size: nat, shift: nat)
    ensures Cursor(address, size, 0, Shift(address, shift), Mask(address, shift), Pow2(shift))
  {
    ShiftAndMask(address, shift);
  }

  /** Address a lies in sector s. */
  ghost predicate LiesIn(a: nat, s: nat, ss: nat) {
    s * ss <= a < s * ss + ss
  }

  lemma LastSector(a: nat, s: nat, shift: nat)
    requires LiesIn(a, s, Pow2(shift))
    ensures s == Shift(a, shift)
  {
    ShiftAndMaskUnique(a, shift, s, a - s * Pow2(shift));
  }

  /** A transfer spans all the sectors from its first to any with a byte of it. */
  lemma SpannedSoFar(address: nat, size: nat, start: nat, first: nat, s: nat, ss: nat)
    requires Cursor(address, size, 0, start, first, ss) && size > 0
    requires start <= s && s * ss < address + size
    ensures s - start + 1 <= Spanned(first, size, ss)
  {
    SumProduct(start, s - start, ss);
    SpannedIsCeiling(first, size, ss);
    AtLeastQuotient(first + size + ss - 1, ss, s - start + 1, address + size - 1 - s * ss);
  }

  lemma AtLeastQuotient(x: nat, d: nat, n: nat, r: nat)
    requires d > 0 && x == n * d + r
    ensures x / d >= n
  {
    var q := x / d;
    assert x == d * q + x % d;
    if q < n {
      MulMonotone(d, q + 1, n);
      ProductStep(d, q);
    }
  }

  lemma EndsWithin(a: nat, s: nat, n: nat, ss: nat)
    requires LiesIn(a, s, ss) && s < n
    ensures a < n * ss
  {
    MulMonotone(ss, s + 1, n);
  }

  /** The next chunk lies in one sector, inside any medium that holds the whole transfer. */
  lemma CursorStep(address: nat, size: nat, done: nat, s: nat, o: nat, ss: nat, v: seq<Sector>)
    requires Cursor(address, size, done, s, o, ss) && done < size && Uniform(v, ss)
    ensures address + size <= |Flat(v)| ==> s < |v|
    ensures Cursor(address, size, done + Min(size - done, ss - o), s + 1, 0, ss)
    ensures LiesIn(address + done + Min(size - done, ss - o) - 1, s, ss)
  {
    assert (s + 1) * ss == s * ss + ss;
    FlatLength(v, ss);
    if address + size <= |v| * ss {
      SectorInRange(ss, s, o, |v|);
    }
  }

  /** Sector s starts at address a. */
  ghost predicate Starts(s: nat, ss: nat, a: nat) {
    s * ss == a
  }

  /** A transfer of whole sectors moves them one at a time. */
  lemma WholeStep(address: nat, size: nat, done: nat, s: nat, ss: nat, end: nat)
    requires Cursor(address, size, done, s, 0, ss) && done < size && Starts(end, ss, address + size)
    ensures size - done >= ss
  {
    if end <= s {
      MulMonotone(ss, end, s);
    } else {
      MulMonotone(ss, s + 1, end);
    }
  }

  /** The first done bytes of got are those at address, if the flat array f has them all. */
  ghost predicate ReadSoFar(f: seq<byte>, address: nat, size: nat, got: seq<byte>, done: nat) {
    address + size <= |f| && done <= size && done <= |got| ==> forall i | 0 <= i < done :: got[i] == f[address + i]
  }

  /** Bytes from size on are what they were. */
  ghost predicate Kept(before: seq<byte>, after: seq<byte>, size: nat) {
    |after| == |before| && forall i | size <= i < |before| :: after[i] == before[i]
  }

  lemma ReadAll(f: seq<byte>, address: nat, size: nat, got: seq<byte>)
    requires ReadSoFar(f, address, size, got, size) && size <= |got|
    ensures address + size <= |f| ==> got[..size] == f[address..address + size]
  {
  }

  lemma ReadStep(f: seq<byte>, address: nat, size: nat, done: nat, n: nat, before: seq<byte>, after: seq<byte>)
    requires done + n <= size <= |before| == |after|
    requires ReadSoFar(f, address, size, before, done)
    requires address + size <= |f| ==> after == Patch(before, done, f[address + done..address + done + n])
    ensures ReadSoFar(f, address, size, after, done + n)
  {
    if address + size <= |f| {
      var d := f[address + done..address + done + n];
      forall i | 0 <= i < done + n ensures after[i] == f[address + i] {
        assert after[i] == if i < done then before[i] else d[i - done];
      }
    }
  }

  lemma ChunkBytes(v: seq<Sector>, a: nat, s: nat, o: nat, ss: nat, n: nat, end: nat)
    requires Uniform(v, ss) && o + n <= ss && o < ss && a == s * ss + o
    requires a < end <= |Flat(v)|
    ensures s < |v| && a + n <= |Flat(v)| && Flat(v)[a..a + n] == v[s][o..o + n]
  {
    FlatLength(v, ss);
    SectorInRange(ss, s, o, |v|);
    SliceOfSector(v, ss, s, o, n);
  }

  /** One more chunk read at the cursor: the bytes are those of the flat array, as far as there are any. */
  lemma ReadChunkStep(v: seq<Sector>, ss: nat, address: nat, size: nat, done: nat, s: nat, o: nat, n: nat,
                      before: seq<byte>, after: seq<byte>)
    requires Uniform(v, ss) && Cursor(address, size, done, s, o, ss) && done < size && n == Min(size - done, ss - o)
    requires size <= |before| == |after| && ReadSoFar(Flat(v), address, size, before, done)
    requires s < |v| ==> after == Patch(before, done, v[s][o..o + n])
    ensures ReadSoFar(Flat(v), address, size, after, done + n)
    ensures s < |v| ==> address + done + n <= |Flat(v)|
  {
    if s < |v| {
      SliceOfSector(v, ss, s, o, n);
    }
    if address + size <= |Flat(v)| {
      ChunkBytes(v, address + done, s, o, ss, n, address + size);
    }
    ReadStep(Flat(v), address, size, done, n, before, after);
  }

  /** The first done bytes of src, and nothing else, have reached the logical contents;
      sectors from s on are untouched. */
  ghost predicate WroteSoFar(v0: seq<Sector>, past0: seq<set<Sector>>, v: seq<Sector>, past: seq<set<Sector>>,
                             address: nat, src: seq<byte>, done: nat, s: nat) {
    && done <= |src| && |v| == |v0| == |past0|
    && (forall k | 0 <= k < |v0| :: v0[k] in past0[k])
    && Flat(v) == Overlay(Flat(v0), address, src[..done])
    && (forall k | s <= k < |v| :: v[k] == v0[k])
    && PastPlus(past0, v, past)
  }

  lemma WroteNothing(v: seq<Sector>, past: seq<set<Sector>>, address: nat, src: seq<byte>, s: nat)
    requires |v| == |past| && forall k | 0 <= k < |v| :: v[k] in past[k]
    ensures WroteSoFar(v, past, v, past, address, src, 0, s)
  {
    assert Overlay(Flat(v), address, src[..0]) == Flat(v);
  }

  /** One more chunk stored at the cursor extends the prefix of src that has been written. */
  lemma WriteStep(v0: seq<Sector>, v: seq<Sector>, v': seq<Sector>, ss: nat, address: nat, src: seq<byte>,
                  done: nat, s: nat, o: nat, n: nat)
    requires Uniform(v, ss) && o < ss && s * ss + o == address + done
    requires done + n <= |src| && o + n <= ss
    requires Flat(v) == Overlay(Flat(v0), address, src[..done])
    requires v' == if s < |v| then v[s := Patch(v[s], o, src[done..done + n])] else v
    ensures Flat(v') == Overlay(Flat(v0), address, src[..done + n])
  {
    var d := src[done..done + n];
    if s < |v| {
      PatchIsOverlay(v, ss, s, o, d);
    } else {
      OverlayPastEnd(v, ss, s, o, d);
    }
    OverlayAppend(Flat(v0), address, src[..done], d);
    assert src[..done] + d == src[..done + n];
  }

  /** Of a transfer that got to its end, the sector of the last byte is in its slot, and if no buffer is out of bounds
      it is on the medium, as are all of its bytes. */
  lemma LastHeld(slots: seq<Slot>, bits: nat, medium: seq<Sector>, view: seq<Sector>, address: nat, size: nat, s: nat,
                 shift: nat)
    requires Coherent(slots, bits, medium, view) && Uniform(view, Pow2(shift)) && Resident(slots, s)
    requires size > 0 && LiesIn(address + size - 1, s, Pow2(shift)) && address + size <= INVALID * Pow2(shift)
    ensures s == Shift(address + size - 1, shift) < INVALID
    ensures Mask(s, bits) < |slots| && slots[Mask(s, bits)].sector == s
    ensures InBounds(slots, |medium|) ==> address + size <= |Flat(view)|
  {
    var ss := Pow2(shift);
    LastSector(address + size - 1, s, shift);
    SectorInRange(ss, s, address + size - 1 - s * ss, INVALID);
    OnlySlot(slots, bits, medium, view, s);
    assert SlotOk(slots[Mask(s, bits)], Mask(s, bits), bits, medium, view);
    if s < |view| {
      EndsWithin(address + size - 1, s, |view|, ss);
      FlatLength(view, ss);
    }
  }

  /** A transfer within one sector, which is held. */
  ghost predicate OneHeld(slots: seq<Slot>, address: nat, size: nat, shift: nat) {
    && Mask(address, shift) + size <= Pow2(shift) && Shift(address, shift) < INVALID
    && Resident(slots, Shift(address, shift))
  }

  /** A transfer of size bytes at address: where it starts, what held when it began, and the raw sectors
      read and written until then. */
  datatype Transfer = Transfer(address: nat, size: nat, start: nat, first: nat, got: nat, put: nat,
                               inside: bool, held: bool, whole: bool)

  /** Raw sectors transferred in so many chunks: one a chunk at most, and none if all is held. */
  ghost predicate Spent(got: int, put: int, chunks: int, held: bool, whole: bool) {
    got <= chunks && put <= chunks && (held ==> got == put == 0) && (whole ==> got == 0)
  }

  /** The first done bytes are moved; the transfer goes on at byte offset of sector at, or has failed there. */
  ghost predicate Progress(t: Transfer, slots: seq<Slot>, n: nat, got: nat, put: nat,
                           done: nat, at: nat, offset: nat, ss: nat, ok: bool) {
    && Cursor(t.address, t.size, done, at, offset, ss)
    && (t.inside ==> InBounds(slots, n))
    && (done > 0 || t.whole ==> offset == 0)
    && (if done == 0 then at == t.start else t.start < at)
    && (ok && done > 0 ==> at > 0 && Resident(slots, at - 1) && LiesIn(t.address + done - 1, at - 1, ss))
    && (ok && t.held && done < t.size ==> offset + t.size - done <= ss && at < INVALID && Resident(slots, at))
    && Spent(got - t.got, put - t.put, at - t.start + (if ok then 0 else 1), t.held, t.whole)
    && (t.held ==> ok)
  }

  lemma ProgressStart(t: Transfer, slots: seq<Slot>, n: nat, shift: nat)
    requires t.start == Shift(t.address, shift) && t.first == Mask(t.address, shift)
    requires t.inside ==> InBounds(slots, n)
    requires t.held ==> OneHeld(slots, t.address, t.size, shift)
    requires t.whole ==> Whole(t.address, t.size, shift)
    ensures Progress(t, slots, n, t.got, t.put, 0, t.start, t.first, Pow2(shift), true)
  {
    CursorStart(t.address, t.size, shift);
  }

  /** A step, from what moving one chunk does. */
  lemma ProgressStep(t: Transfer, slots: seq<Slot>, slots': seq<Slot>, v: seq<Sector>, got: nat, got': nat,
                     put: nat, put': nat, done: nat, at: nat, offset: nat, ss: nat, chunk: nat, ok: bool)
    requires Uniform(v, ss) && done < t.size && chunk == Min(t.size - done, ss - offset)
    requires Progress(t, slots, |v|, got, put, done, at, offset, ss, true)
    requires t.inside ==> InBounds(slots', |v|)
    requires ok ==> Resident(slots', at)
    requires got' <= got + 1 && put' <= put + 1
    requires at < INVALID && Resident(slots, at) ==> ok && got' == got && put' == put
    requires t.whole ==> got' == got
    ensures if ok then Progress(t, slots', |v|, got', put', done + chunk, at + 1, 0, ss, true)
            else Progress(t, slots', |v|, got', put', done, at, offset, ss, false)
  {
    CursorStep(t.address, t.size, done, at, offset, ss, v);
  }

  /** What a transfer has cost when it ends, at its end or at a failed chunk. */
  lemma ProgressEnd(t: Transfer, slots: seq<Slot>, n: nat, got: nat, put: nat, done: nat, at: nat, offset: nat,
                    shift: nat, ok: bool)
    requires t.start == Shift(t.address, shift) && t.first == Mask(t.address, shift)
    requires Progress(t, slots, n, got, put, done, at, offset, Pow2(shift), ok) && (ok <==> done == t.size)
    ensures !ok && done > 0 ==> Mask(t.address + done, shift) == 0
    ensures got <= t.got + Spanned(t.first, t.size, Pow2(shift))
    ensures put <= t.put + Spanned(t.first, t.size, Pow2(shift))
  {
    CursorStart(t.address, t.size, shift);
    if t.size > 0 {
      SpannedSoFar(t.address, t.size, t.start, t.first, if ok then at - 1 else at, Pow2(shift));
    }
    if !ok && done > 0 {
      ShiftAndMaskUnique(t.address + done, shift, at, 0);
    }
  }

  /** How far a read has come: the bytes read so far, and nothing behind the end has changed. */
  ghost predicate ReadProgress(t: Transfer, slots: seq<Slot>, v: seq<Sector>, got: nat, put: nat, before: seq<byte>,
                               bytes: seq<byte>, done: nat, at: nat, offset: nat, ss: nat, ok: bool) {
    && Progress(t, slots, |v|, got, put, done, at, offset, ss, ok)
    && Kept(before, bytes, t.size) && (ok ==> ReadSoFar(Flat(v), t.address, t.size, bytes, done))
  }

  /** What a step of a read starts from. */
  lemma ReadAhead(t: Transfer, slots: seq<Slot>, bits: nat, medium: seq<Sector>, v: seq<Sector>, got: nat, put: nat,
                  done: nat, at: nat, offset: nat, ss: nat)
    requires Coherent(slots, bits, medium, v) && Uniform(v, ss)
    requires Progress(t, slots, |medium|, got, put, done, at, offset, ss, true) && done < t.size
    ensures t.address + t.size <= |Flat(v)| ==> at < |v|
    ensures at < INVALID && Resident(slots, at) ==> Mask(at, bits) < |slots| && slots[Mask(at, bits)].sector == at
  {
    CursorStep(t.address, t.size, done, at, offset, ss, v);
    if at < INVALID && Resident(slots, at) {
      OnlySlot(slots, bits, medium, v, at);
    }
  }

  /** A step of a read, from what reading one chunk does. */
  lemma ReadBehind(t: Transfer, slots: seq<Slot>, slots': seq<Slot>, v: seq<Sector>, got: nat, got': nat,
                   put: nat, put': nat, before: seq<byte>, bytes: seq<byte>, bytes': seq<byte>,
                   done: nat, at: nat, offset: nat, ss: nat, chunk: nat, ok: bool)
    requires Uniform(v, ss) && done < t.size <= |before| && chunk == Min(t.size - done, ss - offset) && !t.whole
    requires ReadProgress(t, slots, v, got, put, before, bytes, done, at, offset, ss, true)
    requires t.inside ==> InBounds(slots', |v|)
    requires ok ==> Resident(slots', at)
    requires got' <= got + 1 && put' <= put + 1
    requires at < INVALID && Resident(slots, at) ==> ok && got' == got && put' == put
    requires Kept(bytes, bytes', done + chunk)
    requires ok && at < |v| ==> bytes' == Patch(bytes, done, v[at][offset..offset + chunk])
    ensures if ok then ReadProgress(t, slots', v, got', put', before, bytes', done + chunk, at + 1, 0, ss, true)
            else ReadProgress(t, slots', v, got', put', before, bytes', done, at, offset, ss, false)
  {
    ProgressStep(t, slots, slots', v, got, got', put, put', done, at, offset, ss, chunk, ok);
    if ok {
      ReadChunkStep(v, ss, t.address, t.size, done, at, offset, chunk, bytes, bytes');
    }
  }

  /** A write of src: the transfer, the sector it ends before if it is one of whole sectors, and the logical contents
      and their record when it began. */
  datatype Writing = Writing(t: Transfer, src: seq<byte>, end: nat, v0: seq<Sector>, past0: seq<set<Sector>>)

  ghost predicate Sensible(w: Writing, ss: nat) {
    && w.t.size == |w.src| && w.t.address + w.t.size <= INVALID * ss
    && (w.t.inside ==> w.t.address + w.t.size <= |Flat(w.v0)|)
    && (w.t.whole ==> Starts(w.end, ss, w.t.address + w.t.size))
  }

  ghost predicate WriteProgress(w: Writing, slots: seq<Slot>, v: seq<Sector>, past: seq<set<Sector>>,
                                got: nat, put: nat, done: nat, at: nat, offset: nat, ss: nat, ok: bool) {
    && Progress(w.t, slots, |v|, got, put, done, at, offset, ss, ok)
    && WroteSoFar(w.v0, w.past0, v, past, w.t.address, w.src, done, at)
  }

  lemma WriteStart(w: Writing, shift: nat)
    requires w.t.size == |w.src| && w.t.address + w.t.size <= INVALID * Pow2(shift)
    requires w.t.inside ==> w.t.address + w.t.size <= |Flat(w.v0)|
    requires w.t.whole ==> Whole(w.t.address, w.t.size, shift)
    requires w.end == Shift(w.t.address, shift) + Shift(w.t.size, shift)
    ensures Sensible(w, Pow2(shift))
  {
    if w.t.whole {
      AlignedEnds(w.t.address, w.t.size, shift);
    }
  }

  /** What a step of a write starts from. */
  lemma WriteAhead(w: Writing, slots: seq<Slot>, bits: nat, medium: seq<Sector>, v: seq<Sector>,
                   past: seq<set<Sector>>, got: nat, put: nat, done: nat, at: nat, offset: nat, ss: nat, chunk: nat)
    requires Coherent(slots, bits, medium, v) && Uniform(v, ss) && Sensible(w, ss)
    requires WriteProgress(w, slots, v, past, got, put, done, at, offset, ss, true)
    requires done < w.t.size && chunk == Min(w.t.size - done, ss - offset)
    ensures at < INVALID && (w.t.inside ==> at < |v|) && (w.t.whole ==> chunk == ss)
    ensures Resident(slots, at) ==> Mask(at, bits) < |slots| && slots[Mask(at, bits)].sector == at
  {
    SectorInRange(ss, at, offset, INVALID);
    CursorStep(w.t.address, w.t.size, done, at, offset, ss, v);
    if w.t.whole {
      WholeStep(w.t.address, w.t.size, done, at, ss, w.end);
    }
    if Resident(slots, at) {
      OnlySlot(slots, bits, medium, v, at);
    }
  }

  /** A step of a write, from what storing one chunk does. */
  lemma WriteBehind(w: Writing, slots: seq<Slot>, slots': seq<Slot>, v: seq<Sector>, v': seq<Sector>,
                    past: seq<set<Sector>>, past': seq<set<Sector>>, got: nat, got': nat, put: nat, put': nat,
                    done: nat, at: nat, offset: nat, ss: nat, chunk: nat, ok: bool)
    requires Uniform(v, ss) && w.t.size == |w.src| && done < w.t.size && chunk == Min(w.t.size - done, ss - offset)
    requires WriteProgress(w, slots, v, past, got, put, done, at, offset, ss, true)
    requires v' == if ok && at < |v| then v[at := Patch(v[at], offset, w.src[done..done + chunk])] else v
    requires PastPlus(past, v', past')
    requires w.t.inside ==> InBounds(slots', |v|)
    requires ok ==> Resident(slots', at)
    requires got' <= got + 1 && put' <= put + 1
    requires Resident(slots, at) ==> ok && got' == got && put' == put
    requires w.t.whole ==> got' == got
    ensures if ok then WriteProgress(w, slots', v', past', got', put', done + chunk, at + 1, 0, ss, true)
            else WriteProgress(w, slots', v', past', got', put', done, at, offset, ss, false)
  {
    ProgressStep(w.t, slots, slots', v, got, got', put, put', done, at, offset, ss, chunk, ok);
    PastStep(w.past0, w.v0, past, v, past', v', at);
    if ok {
      WriteStep(w.v0, v, v', ss, w.t.address, w.src, done, at, offset, chunk);
    }
  }
}
