/** Transfers of one whole sector by its number, as the table code makes them. */
module SectorIO {
  import opened Bits
  import opened Bytes
  import opened Sectors
  import opened Buffers
  import opened Cache
  import opened BlockDevices

  /** A flat array determines the sectors it is cut into. */
  lemma FlatInjective(v: seq<Sector>, w: seq<Sector>, ss: nat)
    requires Uniform(v, ss) && Uniform(w, ss) && |v| == |w| && Flat(v) == Flat(w)
    ensures v == w
  {
    forall s | 0 <= s < |v| ensures v[s] == w[s] {
      SliceOfSector(v, ss, s, 0, ss);
      SliceOfSector(w, ss, s, 0, ss);
      assert v[s][0..ss] == v[s] && w[s][0..ss] == w[s];
    }
  }

  lemma PatchWhole(x: seq<byte>, d: seq<byte>)
    requires |d| <= |x|
    ensures |Patch(x, 0, d)| == |x| && (|d| == |x| ==> Patch(x, 0, d) == d)
  {
  }

  /** An overlay that starts at a sector and does not pass its end changes only that sector. */
  lemma OneSectorWritten(v: seq<Sector>, w: seq<Sector>, ss: nat, s: nat, a: nat, d: seq<byte>)
    requires Uniform(v, ss) && Uniform(w, ss) && |v| == |w| && s < |v| && |d| <= ss && a == s * ss + 0
    requires Flat(w) == Overlay(Flat(v), a, d)
    ensures w == v[s := Patch(v[s], 0, d)]
    ensures |d| == ss ==> w == v[s := d]
  {
    var x := Patch(v[s], 0, d);
    PatchWhole(v[s], d);
    PatchIsOverlay(v, ss, s, 0, d);
    FlatInjective(w, v[s := x], ss);
  }

  lemma SectorAddress(s: nat, shift: nat, n: nat)
    requires s < n
    ensures Shift(s * Pow2(shift), shift) == s && Mask(s * Pow2(shift), shift) == 0
    ensures Shift(Pow2(shift), shift) == 1 && Mask(Pow2(shift), shift) == 0
    ensures s * Pow2(shift) + Pow2(shift) <= n * Pow2(shift)
  {
    var p := Pow2(shift);
    ShiftAndMaskUnique(s * p, shift, s, 0);
    ShiftAndMaskUnique(p, shift, 1, 0);
    SectorBound(s, p, n);
  }

  lemma SectorBound(s: nat, p: nat, n: nat)
    requires s < n
    ensures s * p + p <= n * p
  {
    ProductStep(p, s);
    MulMonotone(p, s + 1, n);
  }

  /** Writes one sector; whatever goes wrong, no other sector is touched. */
  method WriteSector(dev: BlockDevice, sector: nat, src: seq<byte>) returns (ok: bool)
    requires dev.Valid() && sector < |dev.view| && |src| == dev.sectorSize
    modifies dev`medium, dev`faults, dev`rawReads, dev`rawWrites, dev`slots, dev`view, dev`past, dev.Parts
    ensures dev.Valid() && |dev.view| == old(|dev.view|)
    ensures ok ==> dev.view == old(dev.view)[sector := src]
    ensures SameOutside(old(dev.view), dev.view, sector, 1)
    ensures InBounds(old(dev.slots), |dev.view|) ==> InBounds(dev.slots, |dev.view|)
    ensures InBounds(old(dev.slots), |dev.view|) && dev.faults == old(dev.faults) ==> ok
    ensures dev.faults >= old(dev.faults)
  {
    ghost var ss := dev.sectorSize;
    FlatLength(dev.view, ss);
    SectorAddress(sector, dev.sectorSizeShift, |dev.view|);
    MulMonotone(ss, |dev.view|, INVALID);
    ghost var done;
    ok, done := dev.Write(sector * dev.sectorSize, src);
    if dev.buffers != [] || ok {
      OneSectorWritten(old(dev.view), dev.view, ss, sector, sector * ss, src[..done]);
      assert ok ==> src[..done] == src;
    }
  }

  /** Reads one sector. Sectors past the last tag of a buffer are past the end of any medium. */
  method ReadSector(dev: BlockDevice, sector: nat, dst: array<byte>) returns (ok: bool)
    requires dev.Valid() && InBounds(dev.slots, |dev.view|) && dst !in dev.Parts && dst.Length == dev.sectorSize
    modifies dev`medium, dev`faults, dev`rawReads, dev`rawWrites, dev`slots, dev.Parts, dst
    ensures dev.Valid() && InBounds(dev.slots, |dev.view|)
    ensures ok ==> sector < |dev.view| && dst[..] == dev.view[sector]
    ensures dev.faults == old(dev.faults) ==> (ok <==> sector < |dev.view|)
    ensures dev.faults >= old(dev.faults) && (ok ==> dev.faults == old(dev.faults))
  {
    if sector >= INVALID {
      return false;
    }
    ghost var ss := dev.sectorSize;
    SectorAddress(sector, dev.sectorSizeShift, INVALID);
    ok := dev.Read(sector * dev.sectorSize, dst, dev.sectorSize);
    assert dst[..ss] == dst[..];
    SectorHeld(dev.view, ss, sector);
  }

  lemma SectorHeld(v: seq<Sector>, ss: nat, s: nat)
    requires Uniform(v, ss) && ss > 0
    ensures s * ss + ss <= |Flat(v)| <==> s < |v|
    ensures s < |v| ==> Flat(v)[s * ss..s * ss + ss] == v[s]
  {
    FlatLength(v, ss);
    if s < |v| {
      SliceOfSector(v, ss, s, 0, ss);
      assert v[s][0..ss] == v[s];
    } else {
      MulMonotone(ss, |v|, s);
    }
  }
}
