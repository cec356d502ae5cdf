/** Partition tables and the arithmetic that turns requested sizes into byte counts. */
module PartInfos {
  import opened Bits
  import opened Bytes

  datatype Error = Success | BadParam | MisAligned | OutOfRange | NoSpace | WriteFailure

  type Guid = g: seq<byte> | |g| == 16 witness seq(16, _ => 0)

  /** What a table entry says apart from where it lies. */
  datatype Info = Info(name: seq<byte>, typeGuid: Guid, uniqueGuid: Guid, sysind: byte)

  /** Offset 0 asks for a place to be found; a size up to 100 is a percentage. */
  datatype Part = Part(offset: nat, size: nat, info: Info)

  // Partitions start at multiples of this many bytes.
  const ALIGN: nat := 0x10_0000
  const WORD: int := 0x1_0000_0000_0000_0000

  /** Unsigned 64-bit arithmetic wraps. */
  function U64(x: int): (r: nat)
    ensures r < WORD
    decreases if x < 0 then -x else x
  {
    if x < 0 then U64Below(x) else if x >= WORD then U64(x - WORD) else x
  }

  function U64Below(x: int): (r: nat)
    requires x < 0
    ensures r < WORD
    decreases -x
  {
    if x + WORD < 0 then U64Below(x + WORD) else x + WORD
  }

  lemma {:induction false} U64IsRemainder(x: int)
    ensures U64(x) == x % WORD
    decreases if x < 0 then -x else x
  {
    if x < 0 {
      U64BelowIsRemainder(x);
    } else if x >= WORD {
      U64IsRemainder(x - WORD);
    }
  }

  lemma {:induction false} U64BelowIsRemainder(x: int)
    requires x < 0
    ensures U64Below(x) == x % WORD
    decreases -x
  {
    if x + WORD < 0 {
      U64BelowIsRemainder(x + WORD);
    }
  }

  /** The multiple of a at or below w. */
  function AlignDown(w: nat, a: nat): nat
    requires a > 0
    decreases w
  {
    if w < a then 0 else a + AlignDown(w - a, a)
  }

  lemma {:induction false} AlignDownIsRemainder(w: nat, a: nat)
    requires a > 0
    ensures AlignDown(w, a) == w - w % a
    decreases w
  {
    if w < a {
    } else {
      AlignDownIsRemainder(w - a, a);
      OneUnitMore(w, a);
    }
  }

  lemma OneUnitMore(w: nat, a: nat)
    requires 0 < a <= w
    ensures w % a == (w - a) % a
  {
    var q := (w - a) / a;
    ProductStep(a, q);
    DivModUnique(w, a, q + 1, (w - a) % a);
  }

  /** The multiple of a at or above v, in wrapping arithmetic. */
  function AlignUp(v: nat, a: nat): nat
    requires a > 0
  {
    AlignDown(U64(v + a - 1), a)
  }

  /** The space to allocate from, in blocks. */
  datatype Space = Space(first: nat, total: nat, blockSize: nat) {
    function Align(): nat
      requires 0 < blockSize <= ALIGN
      ensures Align() > 0
    {
      ALIGN / blockSize
    }

    // First and last byte that may be used.
    function MinOffset(): nat {
      U64(first * blockSize)
    }

    function MaxOffset(): nat {
      U64(U64(first + total) * blockSize - 1)
    }
  }

  /** The state of the pass over the table: entries before the current one have their sizes in bytes. */
  datatype Pass = Pass(err: Error, parts: seq<Part>, total: nat)

  function PercentBlocks(percent: nat, s: Space): nat
    requires 0 < s.blockSize <= ALIGN
  {
    AlignUp(U64(s.total * percent) / 100, s.Align())
  }

  function OutsideRange(p: Part, s: Space): bool {
    p.offset != 0 && (p.offset < s.MinOffset() || p.offset > s.MaxOffset())
  }

  function Clipped(used: nat, wanted: nat, available: nat): bool {
    U64(used + wanted) > available
  }

  /** The blocks an entry that wants some gets when used of the available ones are gone. */
  function Share(used: nat, wanted: nat, available: nat): nat {
    if Clipped(used, wanted, available) then U64(available - used) else wanted
  }

  /** One entry of the pass. */
  function ResolveStep(r: Pass, i: nat, s: Space): (r': Pass)
    requires i < |r.parts| && 0 < s.blockSize <= ALIGN
    ensures |r'.parts| == |r.parts|
  {
    var p := r.parts[i];
    if p.size <= 100 then
      var wanted := PercentBlocks(p.size, s);
      var blocks := Share(r.total, wanted, s.total);
      if Clipped(r.total, wanted, s.total) && blocks == 0 then r.(err := NoSpace)
      else
        var q := p.(size := U64(blocks * s.blockSize));
        Pass(if OutsideRange(q, s) then OutOfRange else Success, r.parts[i := q], U64(r.total + blocks))
    else if p.offset % ALIGN != 0 then r.(err := MisAligned)
    else Pass(if OutsideRange(p, s) then OutOfRange else Success, r.parts, U64(r.total + AlignUp(p.size, ALIGN)))
  }

  /** The pass over the first n entries; it stops at the first error. */
  function Resolve(parts: seq<Part>, n: nat, s: Space): (r: Pass)
    requires n <= |parts| && 0 < s.blockSize <= ALIGN
    ensures |r.parts| == |parts|
  {
    if n == 0 then Pass(Success, parts, 0)
    else
      var r := Resolve(parts, n - 1, s);
      if r.err != Success then r else ResolveStep(r, n - 1, s)
  }

  lemma AlignUpFacts(v: nat, a: nat)
    requires a > 0 && v + a <= WORD
    ensures AlignUp(v, a) % a == 0 && v <= AlignUp(v, a) < v + a
  {
    var w := v + a - 1;
    AlignDownIsRemainder(w, a);
    MultipleBelow(w, a);
  }

  lemma MultipleBelow(w: nat, a: nat)
    requires a > 0
    ensures (w - w % a) % a == 0 && w - w % a <= w < w - w % a + a
  {
    assert w == a * (w / a) + w % a;
    DivModUnique(w - w % a, a, w / a, 0);
  }

  /** The total size of the first n entries. */
  function SizeSum(parts: seq<Part>, n: nat): nat
    requires n <= |parts|
  {
    if n == 0 then 0 else SizeSum(parts, n - 1) + parts[n - 1].size
  }

  /** The total size of the first n entries, each rounded up to whole units. */
  function RoundedSum(parts: seq<Part>, n: nat): nat
    requires n <= |parts|
  {
    if n == 0 then 0 else RoundedSum(parts, n - 1) + AlignUp(parts[n - 1].size, ALIGN)
  }

  lemma {:induction false} SizeSumAgrees(a: seq<Part>, b: seq<Part>, n: nat)
    requires n <= |a| && n <= |b| && forall i | 0 <= i < n :: a[i].size == b[i].size
    ensures SizeSum(a, n) == SizeSum(b, n)
  {
    if n == 0 {
    } else {
      SizeSumAgrees(a, b, n - 1);
    }
  }

  /** Block sizes divide the alignment, and no address or product in the pass leaves 64 bits. */
  ghost predicate Roomy(s: Space) {
    && 0 < s.blockSize <= ALIGN && ALIGN % s.blockSize == 0
    && s.first > 0 && s.total * 100 < WORD && s.total + ALIGN <= WORD
    && s.first + s.total < WORD && (s.first + s.total) * s.blockSize + 2 * ALIGN <= WORD
  }

  ghost predicate Percentages(parts: seq<Part>) {
    forall i | 0 <= i < |parts| :: parts[i].offset == 0 && 1 <= parts[i].size <= 100
  }

  /** Share is at least its percentage of the blocks, and less than one alignment unit above it. */
  ghost predicate FairShare(size: nat, percent: nat, s: Space)
    requires 0 < s.blockSize <= ALIGN
  {
    && size % ALIGN == 0
    && (s.total * percent / 100) * s.blockSize <= size < (s.total * percent / 100) * s.blockSize + ALIGN
  }

  /** The sizes after the pass over the first n of a table of percentages. */
  ghost predicate Shared(parts: seq<Part>, r: Pass, n: nat, s: Space)
    requires n <= |parts| == |r.parts| && 0 < s.blockSize <= ALIGN
  {
    && SizeSum(r.parts, n) == r.total * s.blockSize && r.total <= s.total
    && (forall i | n <= i < |parts| :: r.parts[i] == parts[i])
    && (forall i | 0 <= i < n :: r.parts[i] == parts[i].(size := r.parts[i].size) && r.parts[i].size > 0)
    && (forall i | 0 <= i < n - 1 :: FairShare(r.parts[i].size, parts[i].size, s))
    && (n > 0 ==> FairShare(r.parts[n - 1].size, parts[n - 1].size, s) || r.total == s.total)
  }

  lemma BlocksToBytes(s: Space, k: nat)
    requires 0 < s.blockSize <= ALIGN && ALIGN % s.blockSize == 0
    ensures s.Align() * s.blockSize == ALIGN
    ensures k % s.Align() == 0 ==> (k * s.blockSize) % ALIGN == 0
  {
    var a, b := s.Align(), s.blockSize;
    assert ALIGN == b * a;
    if k % a == 0 {
      assert k == a * (k / a);
      Reassociate(k / a, a, b);
      assert k * b == (k / a) * ALIGN;
      DivModUnique(k * b, ALIGN, k / a, 0);
    }
  }

  lemma Reassociate(q: int, a: int, b: int)
    ensures (a * q) * b == q * (b * a)
  {
  }

  /** Rounding w blocks up to whole units, in bytes. */
  lemma UnitsInBytes(w: nat, blocks: nat, unit: nat, blockSize: nat)
    requires w <= blocks < w + unit && unit * blockSize == ALIGN && blockSize > 0
    ensures w * blockSize <= blocks * blockSize < w * blockSize + ALIGN
  {
    MulMonotone(blockSize, w, blocks);
    MulMonotone(blockSize, blocks + 1, w + unit);
    SumProduct(w, unit, blockSize);
    SumProduct(blocks, 1, blockSize);
  }

  lemma PercentOf(total: nat, percent: nat)
    requires total >= 100 && 1 <= percent <= 100
    ensures 1 <= total * percent / 100 <= total && total * percent <= total * 100
  {
    MulMonotone(total, percent, 100);
    MulMonotone(total, 1, percent);
  }

  /** The unclipped share of an entry, in blocks and in bytes. */
  lemma PercentFacts(percent: nat, s: Space)
    requires Roomy(s) && 1 <= percent <= 100 && s.total >= 100
    ensures var blocks := PercentBlocks(percent, s);
            blocks > 0 && blocks <= s.total + ALIGN && FairShare(blocks * s.blockSize, percent, s)
  {
    var w := s.total * percent / 100;
    var blocks := PercentBlocks(percent, s);
    PercentOf(s.total, percent);
    AlignUpFacts(w, s.Align());
    BlocksToBytes(s, blocks);
    UnitsInBytes(w, blocks, s.Align(), s.blockSize);
  }

  lemma ShareFits(used: nat, wanted: nat, available: nat)
    requires used <= available && 0 < wanted && used + wanted < WORD
    ensures Clipped(used, wanted, available) <==> used + wanted > available
    ensures Share(used, wanted, available) == if used + wanted > available then available - used else wanted
  {
  }

  lemma PercentStep(r: Pass, n: nat, s: Space, wanted: nat, blocks: nat, bytes: nat)
    requires 0 < s.blockSize <= ALIGN && n < |r.parts| && r.total <= s.total < WORD
    requires r.parts[n].offset == 0 && r.parts[n].size <= 100
    requires wanted == PercentBlocks(r.parts[n].size, s) && blocks == Share(r.total, wanted, s.total)
    requires 0 < wanted && r.total + wanted < WORD && bytes == blocks * s.blockSize < WORD
    ensures r.total + blocks <= s.total && (blocks == wanted || r.total + blocks == s.total)
    ensures ResolveStep(r, n, s) ==
            if blocks == 0 then r.(err := NoSpace)
            else Pass(Success, r.parts[n := r.parts[n].(size := bytes)], r.total + blocks)
  {
    ShareFits(r.total, wanted, s.total);
  }

  lemma PercentBounded(percent: nat, s: Space)
    requires Roomy(s) && 1 <= percent <= 100 && s.total >= 100
    ensures 0 < PercentBlocks(percent, s) <= s.total + ALIGN
  {
    PercentFacts(percent, s);
  }

  lemma BytesFit(blocks: nat, s: Space)
    requires Roomy(s) && blocks <= s.total
    ensures blocks * s.blockSize < WORD
  {
    MulMonotone(s.blockSize, blocks, s.first + s.total);
  }

  lemma ShareFacts(percent: nat, used: nat, s: Space, wanted: nat, blocks: nat)
    requires Roomy(s) && s.total >= 100 && 1 <= percent <= 100 && used <= s.total
    requires wanted == PercentBlocks(percent, s) && blocks == Share(used, wanted, s.total)
    ensures 0 < wanted && used + wanted < WORD && blocks * s.blockSize < WORD
    ensures blocks > 0 ==> blocks * s.blockSize > 0
    ensures FairShare(blocks * s.blockSize, percent, s) || used + blocks == s.total
    ensures used == s.total ==> blocks == 0
  {
    PercentBounded(percent, s);
    ShareFits(used, wanted, s.total);
    BytesFit(blocks, s);
    PercentFacts(percent, s);
    if blocks > 0 {
      MulMonotone(s.blockSize, 1, blocks);
    }
  }

  lemma SharedStep(parts: seq<Part>, r: Pass, n: nat, s: Space)
    requires Roomy(s) && s.total >= 100 && Percentages(parts) && n < |parts| == |r.parts|
    requires Shared(parts, r, n, s) && ResolveStep(r, n, s).err == Success && r.err == Success
    ensures Shared(parts, ResolveStep(r, n, s), n + 1, s)
  {
    var wanted := PercentBlocks(parts[n].size, s);
    var blocks := Share(r.total, wanted, s.total);
    ShareFacts(parts[n].size, r.total, s, wanted, blocks);
    PercentStep(r, n, s, wanted, blocks, blocks * s.blockSize);
    SharedWith(parts, r, n, s, blocks, blocks * s.blockSize);
  }

  lemma SharedWith(parts: seq<Part>, r: Pass, n: nat, s: Space, blocks: nat, bytes: nat)
    requires 0 < s.blockSize <= ALIGN && n < |parts| == |r.parts| && Shared(parts, r, n, s)
    requires r.total < s.total && r.total + blocks <= s.total && bytes == blocks * s.blockSize > 0
    requires FairShare(bytes, parts[n].size, s) || r.total + blocks == s.total
    ensures Shared(parts, Pass(Success, r.parts[n := r.parts[n].(size := bytes)], r.total + blocks), n + 1, s)
  {
    SizeSumAgrees(r.parts[n := r.parts[n].(size := bytes)], r.parts, n);
    SumProduct(r.total, blocks, s.blockSize);
  }

  /** What the pass makes of a table of percentages that fits. */
  lemma {:induction false} PercentagesShared(parts: seq<Part>, n: nat, s: Space)
    requires Roomy(s) && s.total >= 100 && Percentages(parts) && n <= |parts|
    requires Resolve(parts, n, s).err == Success
    ensures Shared(parts, Resolve(parts, n, s), n, s)
  {
    if n == 0 {
    } else {
      PercentagesShared(parts, n - 1, s);
      SharedStep(parts, Resolve(parts, n - 1, s), n - 1, s);
    }
  }
}
