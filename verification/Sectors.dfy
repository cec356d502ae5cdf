/** What a sector-addressed medium means as one flat array of bytes. */
module Sectors {
  import opened Bits
  import opened Bytes

  type Sector = seq<byte>

  ghost predicate Uniform(v: seq<Sector>, ss: nat) {
    forall s | 0 <= s < |v| :: |v[s]| == ss
  }

  /** The flat byte array stored in the sectors v. */
  function Flat(v: seq<Sector>): seq<byte> {
    if v == [] then [] else v[0] + Flat(v[1..])
  }

  /** f with the bytes of d written at address a; anything that would fall past the end is dropped. */
  function Overlay(f: seq<byte>, a: nat, d: seq<byte>): (r: seq<byte>)
    ensures |r| == |f|
    ensures forall i | 0 <= i < |f| :: r[i] == if a <= i < a + |d| then d[i - a] else f[i]
  {
    seq(|f|, i requires 0 <= i < |f| => if a <= i < a + |d| then d[i - a] else f[i])
  }

  lemma {:induction false} FlatLength(v: seq<Sector>, ss: nat)
    requires Uniform(v, ss)
    ensures |Flat(v)| == |v| * ss
  {
    if v == [] {
    } else {
      FlatLength(v[1..], ss);
      assert |v| * ss == (|v| - 1) * ss + ss;
    }
  }

  lemma {:induction false} FlatAppend(v: seq<Sector>, w: seq<Sector>)
    ensures Flat(v + w) == Flat(v) + Flat(w)
  {
    if v == [] {
      assert v + w == w;
    } else {
      var u := v[1..] + w;
      FlatAppend(v[1..], w);
      assert v + w == [v[0]] + u;
      FlatCons(v[0], u);
    }
  }

  lemma FlatCons(x: Sector, u: seq<Sector>)
    ensures Flat([x] + u) == x + Flat(u)
  {
    assert ([x] + u)[1..] == u;
  }

  /** The bytes of sector s start at address s * ss. */
  lemma FlatAround(v: seq<Sector>, ss: nat, s: nat)
    requires Uniform(v, ss) && s < |v|
    ensures |Flat(v[..s])| == s * ss
    ensures Flat(v) == Flat(v[..s]) + v[s] + Flat(v[s + 1..])
  {
    FlatLength(v[..s], ss);
    FlatAppend(v[..s], v[s..]);
    assert v == v[..s] + v[s..];
    assert v[s..][1..] == v[s + 1..];
  }

  /** Writing within one sector changes the flat array exactly at that sector's addresses. */
  lemma PatchIsOverlay(v: seq<Sector>, ss: nat, s: nat, o: nat, d: seq<byte>)
    requires Uniform(v, ss) && s < |v| && o + |d| <= ss
    ensures Flat(v[s := Patch(v[s], o, d)]) == Overlay(Flat(v), s * ss + o, d)
  {
    var w := v[s := Patch(v[s], o, d)];
    FlatAround(v, ss, s);
    FlatAround(w, ss, s);
    assert w[..s] == v[..s] && w[s + 1..] == v[s + 1..];
    PatchBetween(Flat(v[..s]), v[s], Flat(v[s + 1..]), s * ss, o, d);
  }

  lemma PatchBetween(x: seq<byte>, y: seq<byte>, z: seq<byte>, a: nat, o: nat, d: seq<byte>)
    requires |x| == a && o + |d| <= |y|
    ensures x + Patch(y, o, d) + z == Overlay(x + y + z, a + o, d)
  {
  }

  /** Reading within one sector reads the flat array at that sector's addresses. */
  lemma SliceOfSector(v: seq<Sector>, ss: nat, s: nat, o: nat, n: nat)
    requires Uniform(v, ss) && s < |v| && o + n <= ss
    ensures s * ss + o + n <= |Flat(v)|
    ensures Flat(v)[s * ss + o..s * ss + o + n] == v[s][o..o + n]
  {
    FlatAround(v, ss, s);
    SliceBetween(Flat(v[..s]), v[s], Flat(v[s + 1..]), s * ss, o, n);
  }

  lemma SliceBetween(x: seq<byte>, y: seq<byte>, z: seq<byte>, a: nat, o: nat, n: nat)
    requires |x| == a && o + n <= |y|
    ensures (x + y + z)[a + o..a + o + n] == y[o..o + n]
  {
  }

  /** A sector past the end contributes nothing to the flat array. */
  lemma OverlayPastEnd(v: seq<Sector>, ss: nat, s: nat, o: nat, d: seq<byte>)
    requires Uniform(v, ss) && s >= |v|
    ensures Overlay(Flat(v), s * ss + o, d) == Flat(v)
  {
    FlatLength(v, ss);
    MulMonotone(ss, |v|, s);
  }

  lemma OverlayAppend(f: seq<byte>, a: nat, d: seq<byte>, e: seq<byte>)
    ensures Overlay(Overlay(f, a, d), a + |d|, e) == Overlay(f, a, d + e)
  {
  }

  /** A sector with bytes inside a medium of n sectors is one of its sectors. */
  lemma SectorInRange(ss: nat, s: nat, o: nat, n: nat)
    requires ss > 0 && s * ss + o < n * ss
    ensures s < n
  {
    if s >= n {
      MulMonotone(ss, n, s);
    }
  }

  /** The consecutive sectors a source buffer of n * ss bytes is made of. */
  function Chunks(src: seq<byte>, ss: nat, n: nat): (w: seq<Sector>)
    requires |src| == n * ss
    ensures |w| == n && Uniform(w, ss) && Flat(w) == src
  {
    if n == 0 then []
    else
      assert (n - 1) * ss == n * ss - ss >= 0 by {
        MulMonotone(ss, 0, n - 1);
      }
      var w := [src[..ss]] + Chunks(src[ss..], ss, n - 1);
      assert w[1..] == Chunks(src[ss..], ss, n - 1);
      w
  }

  /** v with the sectors of w in place from sector s on. */
  function Replace(v: seq<Sector>, s: nat, w: seq<Sector>): (r: seq<Sector>)
    requires s + |w| <= |v|
    ensures |r| == |v|
  {
    v[..s] + w + v[s + |w|..]
  }

  /** The bytes of sectors s to s + n - 1 start at address s * ss. */
  lemma FlatAroundRun(v: seq<Sector>, ss: nat, s: nat, n: nat)
    requires Uniform(v, ss) && s + n <= |v|
    ensures |Flat(v[..s])| == s * ss && |Flat(v[s..s + n])| == n * ss
    ensures Flat(v) == Flat(v[..s]) + Flat(v[s..s + n]) + Flat(v[s + n..])
  {
    FlatLength(v[..s], ss);
    FlatLength(v[s..s + n], ss);
    FlatAppend(v[..s], v[s..s + n]);
    FlatAppend(v[..s] + v[s..s + n], v[s + n..]);
    assert v == v[..s] + v[s..s + n] + v[s + n..];
  }

  lemma SliceOfRun(v: seq<Sector>, ss: nat, s: nat, n: nat)
    requires Uniform(v, ss) && s + n <= |v|
    ensures s * ss + n * ss <= |Flat(v)|
    ensures Flat(v)[s * ss..s * ss + n * ss] == Flat(v[s..s + n])
  {
    FlatAroundRun(v, ss, s, n);
    SliceBetween(Flat(v[..s]), Flat(v[s..s + n]), Flat(v[s + n..]), s * ss, 0, n * ss);
  }

  lemma ReplaceIsOverlay(v: seq<Sector>, ss: nat, s: nat, w: seq<Sector>)
    requires Uniform(v, ss) && Uniform(w, ss) && s + |w| <= |v|
    ensures Flat(Replace(v, s, w)) == Overlay(Flat(v), s * ss, Flat(w))
  {
    var r, n := Replace(v, s, w), |w|;
    FlatAroundRun(v, ss, s, n);
    FlatAroundRun(r, ss, s, n);
    assert r[..s] == v[..s] && r[s..s + n] == w && r[s + n..] == v[s + n..];
    ReplaceBetween(Flat(v[..s]), Flat(v[s..s + n]), Flat(v[s + n..]), Flat(w));
  }

  /** Only the n bytes from address a on may differ. */
  ghost predicate SameBytesOutside(f: seq<byte>, f': seq<byte>, a: nat, n: nat) {
    |f'| == |f| && forall i | 0 <= i < |f| && !(a <= i < a + n) :: f'[i] == f[i]
  }

  /** Changing only some sectors changes only their bytes. */
  lemma OutsideRun(v: seq<Sector>, v': seq<Sector>, ss: nat, s: nat, n: nat)
    requires Uniform(v, ss) && Uniform(v', ss) && |v'| == |v| && s + n <= |v|
    requires v'[..s] == v[..s] && v'[s + n..] == v[s + n..]
    ensures SameBytesOutside(Flat(v), Flat(v'), s * ss, n * ss)
  {
    FlatAroundRun(v, ss, s, n);
    FlatAroundRun(v', ss, s, n);
    OutsideMiddle(Flat(v[..s]), Flat(v[s..s + n]), Flat(v'[s..s + n]), Flat(v[s + n..]));
  }

  lemma OutsideMiddle(x: seq<byte>, y: seq<byte>, y': seq<byte>, z: seq<byte>)
    requires |y'| == |y|
    ensures SameBytesOutside(x + y + z, x + y' + z, |x|, |y|)
  {
  }

  lemma ReplaceBetween(x: seq<byte>, y: seq<byte>, z: seq<byte>, d: seq<byte>)
    requires |d| == |y|
    ensures x + d + z == Overlay(x + y + z, |x|, d)
  {
  }

  /** How many chunks, one per sector, a transfer of size bytes from offset o of a sector is made in. */
  function Spanned(o: nat, size: nat, ss: nat): (n: nat)
    requires o < ss
  {
    if size == 0 then 0 else 1 + Spanned(0, size - Min(size, ss - o), ss)
  }

  /** That is the number of sectors the bytes reach into. */
  lemma {:induction false} SpannedIsCeiling(o: nat, size: nat, ss: nat)
    requires o < ss && size > 0
    ensures Spanned(o, size, ss) == (o + size + ss - 1) / ss
    decreases size
  {
    if size <= ss - o {
      assert Spanned(0, 0, ss) == 0;
      DivModUnique(o + size + ss - 1, ss, 1, o + size - 1);
    } else {
      var rest := size - (ss - o);
      SpannedIsCeiling(0, rest, ss);
      var q, r := (rest + ss - 1) / ss, (rest + ss - 1) % ss;
      assert rest + ss - 1 == ss * q + r;
      assert ss * (q + 1) == ss * q + ss;
      DivModUnique(o + size + ss - 1, ss, q + 1, r);
    }
  }

  /** Transfers without buffering must be whole sectors. */
  predicate Whole(address: nat, size: nat, shift: nat) {
    Mask(address, shift) == 0 && Mask(size, shift) == 0
  }

  /** Both ends of a whole-sector transfer are sector boundaries. */
  lemma AlignedEnds(address: nat, size: nat, shift: nat)
    requires Whole(address, size, shift)
    ensures address == Shift(address, shift) * Pow2(shift) && size == Shift(size, shift) * Pow2(shift)
    ensures (Shift(address, shift) + Shift(size, shift)) * Pow2(shift) == address + size
  {
    ShiftAndMask(address, shift);
    ShiftAndMask(size, shift);
    SumProduct(Shift(address, shift), Shift(size, shift), Pow2(shift));
  }

  /** The erased state of a run of sectors. */
  function Blank(n: nat, ss: nat): (w: seq<Sector>)
    ensures |w| == n && Uniform(w, ss)
  {
    seq(n, _ => Zeros(ss))
  }

  /** A whole-sector transfer covers a run of sectors, inside the medium exactly when its bytes are. */
  lemma AlignedRun(v: seq<Sector>, address: nat, size: nat, ss: nat, s: nat, n: nat)
    requires Uniform(v, ss) && ss > 0 && address == s * ss && size == n * ss
    ensures address + size <= |Flat(v)| <==> s + n <= |v|
    ensures s + n <= |v| ==> Flat(v)[address..address + size] == Flat(v[s..s + n])
  {
    FlatLength(v, ss);
    SumProduct(s, n, ss);
    ProductOrder(s + n, |v|, ss);
    if s + n <= |v| {
      SliceOfRun(v, ss, s, n);
    }
  }

  lemma {:induction false} AlignedSpan(n: nat, ss: nat)
    requires ss > 0
    ensures Spanned(0, n * ss, ss) == n
  {
    if n == 0 {
    } else {
      assert n * ss == (n - 1) * ss + ss;
      MulMonotone(ss, 0, n - 1);
      AlignedSpan(n - 1, ss);
    }
  }

  lemma {:induction false} BlankIsZeros(n: nat, ss: nat)
    ensures Flat(Blank(n, ss)) == Zeros(n * ss)
  {
    if n == 0 {
    } else {
      BlankIsZeros(n - 1, ss);
      assert Blank(n, ss)[1..] == Blank(n - 1, ss);
      assert n * ss == ss + (n - 1) * ss;
      assert Zeros(ss) + Zeros((n - 1) * ss) == Zeros(n * ss);
    }
  }

  /** Erasing a run of whole sectors writes zeros at its addresses. */
  lemma EraseIsOverlay(v: seq<Sector>, address: nat, size: nat, shift: nat)
    requires Uniform(v, Pow2(shift)) && Whole(address, size, shift)
    ensures address + size <= |Flat(v)| <==> Shift(address, shift) + Shift(size, shift) <= |v|
    ensures var s, n := Shift(address, shift), Shift(size, shift);
            s + n <= |v| ==> Flat(Replace(v, s, Blank(n, Pow2(shift)))) == Overlay(Flat(v), address, Zeros(size))
  {
    var s, n := Shift(address, shift), Shift(size, shift);
    AlignedEnds(address, size, shift);
    AlignedRun(v, address, size, Pow2(shift), s, n);
    if s + n <= |v| {
      BlankIsZeros(n, Pow2(shift));
      ReplaceIsOverlay(v, Pow2(shift), s, Blank(n, Pow2(shift)));
    }
  }
}
