/** Which tables the first pass of validation refuses, and what it counts. */
module Refusals {
  import opened Bits
  import opened PartInfos
  import opened Placement
  import opened Validation
  import opened Termination

  // Offsets

  /** A size in bytes, as opposed to a percentage, asks for an offset in whole units. */
  predicate Unaligned(p: Part) {
    p.size > 100 && p.offset % 0x10_0000 != 0
  }

  /** An offset that was given is before the first byte of the space or behind its last. */
  predicate Outside(p: Part, minOffset: nat, maxOffset: nat) {
    p.offset != 0 && !(minOffset <= p.offset <= maxOffset)
  }

  predicate Breach(p: Part, minOffset: nat, maxOffset: nat) {
    Unaligned(p) || Outside(p, minOffset, maxOffset)
  }

  /** The first and the last byte of a space whose addresses do not wrap. */
  lemma SpaceEdges(s: Space)
    requires s.blockSize > 0 && s.total > 0 && s.first + s.total < WORD && (s.first + s.total) * s.blockSize < WORD
    ensures s.MinOffset() == s.first * s.blockSize && s.MaxOffset() == (s.first + s.total) * s.blockSize - 1
  {
    MulMonotone(s.blockSize, s.first, s.first + s.total);
    MulMonotone(s.blockSize, 1, s.first + s.total);
  }

  /** No entry among the first n breaks a rule. */
  ghost predicate Orderly(parts: seq<Part>, n: nat, minOffset: nat, maxOffset: nat)
    requires n <= |parts|
  {
    forall i | 0 <= i < n :: !Breach(parts[i], minOffset, maxOffset)
  }

  /** Entry i is the first to break a rule, and it breaks that of alignment, or the other one alone. */
  ghost predicate BrokenBy(parts: seq<Part>, i: nat, minOffset: nat, maxOffset: nat, unaligned: bool) {
    && i < |parts| && Orderly(parts, i, minOffset, maxOffset)
    && Breach(parts[i], minOffset, maxOffset) && Unaligned(parts[i]) == unaligned
  }

  ghost predicate Broken(parts: seq<Part>, n: nat, minOffset: nat, maxOffset: nat, unaligned: bool) {
    exists i: nat :: i < n && BrokenBy(parts, i, minOffset, maxOffset, unaligned)
  }

  /** What the pass over the first n entries says of the rules. */
  ghost predicate Judges(parts: seq<Part>, r: Pass, n: nat, minOffset: nat, maxOffset: nat)
    requires n <= |parts| == |r.parts|
  {
    match r.err
    case Success =>
      Orderly(parts, n, minOffset, maxOffset) && forall i | n <= i < |parts| :: r.parts[i] == parts[i]
    case MisAligned => Broken(parts, n, minOffset, maxOffset, true)
    case OutOfRange => Broken(parts, n, minOffset, maxOffset, false)
    case NoSpace => true
    case _ => false
  }

  lemma StepJudges(parts: seq<Part>, r: Pass, n: nat, s: Space)
    requires 0 < s.blockSize <= ALIGN && n < |parts| == |r.parts| && r.err == Success
    requires Judges(parts, r, n, s.MinOffset(), s.MaxOffset())
    ensures Judges(parts, ResolveStep(r, n, s), n + 1, s.MinOffset(), s.MaxOffset())
  {
    var lo, hi := s.MinOffset(), s.MaxOffset();
    if Breach(parts[n], lo, hi) {
      assert BrokenBy(parts, n, lo, hi, Unaligned(parts[n]));
    }
  }

  lemma BrokenMore(parts: seq<Part>, n: nat, minOffset: nat, maxOffset: nat, unaligned: bool)
    requires Broken(parts, n, minOffset, maxOffset, unaligned)
    ensures Broken(parts, n + 1, minOffset, maxOffset, unaligned)
  {
    var i: nat :| i < n && BrokenBy(parts, i, minOffset, maxOffset, unaligned);
    assert i < n + 1 && BrokenBy(parts, i, minOffset, maxOffset, unaligned);
  }

  lemma {:induction false} PassJudges(parts: seq<Part>, n: nat, s: Space)
    requires 0 < s.blockSize <= ALIGN && n <= |parts|
    ensures Judges(parts, Resolve(parts, n, s), n, s.MinOffset(), s.MaxOffset())
  {
    if n > 0 {
      PassJudges(parts, n - 1, s);
      var r := Resolve(parts, n - 1, s);
      if r.err == Success {
        StepJudges(parts, r, n - 1, s);
      } else if r.err == MisAligned || r.err == OutOfRange {
        BrokenMore(parts, n - 1, s.MinOffset(), s.MaxOffset(), r.err == MisAligned);
      }
    }
  }

  lemma OneFirstBreach(parts: seq<Part>, lo: nat, hi: nat, n: nat)
    requires n <= |parts|
    ensures !(Broken(parts, n, lo, hi, true) && Broken(parts, n, lo, hi, false))
    ensures Orderly(parts, n, lo, hi) ==> !Broken(parts, n, lo, hi, true) && !Broken(parts, n, lo, hi, false)
  {
    if Broken(parts, n, lo, hi, true) && Broken(parts, n, lo, hi, false) {
      var i: nat :| i < n && BrokenBy(parts, i, lo, hi, true);
      var j: nat :| j < n && BrokenBy(parts, j, lo, hi, false);
    }
  }

  /** If the pass does not run out of space, it accepts the offsets if and only if no entry breaks a rule, and
      otherwise the first one that does decides on the error. */
  lemma OffsetsJudged(parts: seq<Part>, s: Space, lo: nat, hi: nat)
    requires 0 < s.blockSize <= ALIGN && lo == s.MinOffset() && hi == s.MaxOffset()
    requires Resolve(parts, |parts|, s).err != NoSpace
    ensures Resolve(parts, |parts|, s).err == Success <==> Orderly(parts, |parts|, lo, hi)
    ensures Resolve(parts, |parts|, s).err == MisAligned <==> Broken(parts, |parts|, lo, hi, true)
    ensures Resolve(parts, |parts|, s).err == OutOfRange <==> Broken(parts, |parts|, lo, hi, false)
  {
    PassJudges(parts, |parts|, s);
    OneFirstBreach(parts, lo, hi, |parts|);
  }

  /** The errors of validation as a whole. */
  lemma ValidationJudged(parts: seq<Part>, s: Space, lo: nat, hi: nat)
    requires s.blockSize <= ALIGN && lo == s.MinOffset() && hi == s.MaxOffset()
    ensures var v := Validated(parts, s);
            && (v.Done? && v.err == BadParam <==> s.first == 0 || s.blockSize == 0)
            && (v.Done? && v.err == MisAligned ==> Broken(parts, |parts|, lo, hi, true))
            && (v.Done? && v.err == OutOfRange ==> Broken(parts, |parts|, lo, hi, false))
            && (v.Hangs? || v.err == Success ==> Orderly(parts, |parts|, lo, hi))
  {
    if s.first > 0 && s.blockSize > 0 {
      ValidatedSteps(parts, s, Resolve(parts, |parts|, s));
      PassJudges(parts, |parts|, s);
    }
  }

  // Sizes

  /** The blocks used up by the first n entries: those of a percentage are what its size in bytes takes, those of a
      size in bytes its rounded bytes. */
  function UsedBlocks(parts: seq<Part>, after: seq<Part>, n: nat, s: Space): nat
    requires n <= |parts| == |after| && s.blockSize > 0
  {
    if n == 0 then 0
    else UsedBlocks(parts, after, n - 1, s) +
         if parts[n - 1].size <= 100 then after[n - 1].size / s.blockSize else AlignUp(parts[n - 1].size, ALIGN)
  }

  lemma {:induction false} UsedAgrees(parts: seq<Part>, a: seq<Part>, b: seq<Part>, n: nat, s: Space)
    requires n <= |parts| == |a| == |b| && s.blockSize > 0 && forall i | 0 <= i < n :: a[i] == b[i]
    ensures UsedBlocks(parts, a, n, s) == UsedBlocks(parts, b, n, s)
  {
    if n > 0 {
      UsedAgrees(parts, a, b, n - 1, s);
    }
  }

  /** A size in bytes stays, and so does 0 per cent. Any other percentage becomes its share, in whole
      blocks, or all that is left. */
  ghost predicate Resolved(parts: seq<Part>, after: seq<Part>, i: nat, s: Space)
    requires i < |parts| == |after| && 0 < s.blockSize <= ALIGN
  {
    && after[i] == parts[i].(size := after[i].size)
    && (parts[i].size > 100 || parts[i].size == 0 ==> after[i].size == parts[i].size)
    && (1 <= parts[i].size <= 100 ==>
          && after[i].size > 0 && after[i].size % s.blockSize == 0
          && UsedBlocks(parts, after, i + 1, s) <= s.total
          && (FairShare(after[i].size, parts[i].size, s) || UsedBlocks(parts, after, i + 1, s) == s.total))
  }

  /** What the pass over the first n entries has made of them, and what it has counted. */
  ghost predicate Tallied(parts: seq<Part>, r: Pass, n: nat, s: Space)
    requires n <= |parts| == |r.parts| && 0 < s.blockSize <= ALIGN
  {
    && r.total == UsedBlocks(parts, r.parts, n, s)
    && (forall i | 0 <= i < n :: Resolved(parts, r.parts, i, s))
    && (forall i | n <= i < |parts| :: r.parts[i] == parts[i])
  }

  lemma ResolvedSame(parts: seq<Part>, a: seq<Part>, b: seq<Part>, i: nat, s: Space)
    requires i < |parts| == |a| == |b| && 0 < s.blockSize <= ALIGN && Resolved(parts, a, i, s)
    requires forall j | 0 <= j <= i :: a[j] == b[j]
    ensures Resolved(parts, b, i, s)
  {
    UsedAgrees(parts, a, b, i + 1, s);
  }

  /** One more entry, of so many bytes and blocks. */
  lemma TalliedWith(parts: seq<Part>, r: Pass, n: nat, s: Space, blocks: nat, size: nat)
    requires n < |parts| == |r.parts| && 0 < s.blockSize <= ALIGN && Tallied(parts, r, n, s)
    requires blocks == if parts[n].size <= 100 then size / s.blockSize else AlignUp(parts[n].size, ALIGN)
    requires parts[n].size > 100 || parts[n].size == 0 ==> size == parts[n].size
    requires 1 <= parts[n].size <= 100 ==>
               && size > 0 && size % s.blockSize == 0 && r.total + blocks <= s.total
               && (FairShare(size, parts[n].size, s) || r.total + blocks == s.total)
    ensures Tallied(parts, Pass(Success, r.parts[n := r.parts[n].(size := size)], r.total + blocks), n + 1, s)
  {
    var after := r.parts[n := r.parts[n].(size := size)];
    UsedAgrees(parts, r.parts, after, n, s);
    forall i | 0 <= i < n ensures Resolved(parts, after, i, s) {
      ResolvedSame(parts, r.parts, after, i, s);
    }
  }

  lemma BlocksOf(blocks: nat, b: nat)
    requires b > 0
    ensures (blocks * b) / b == blocks && (blocks * b) % b == 0
  {
    DivModUnique(blocks * b, b, blocks, 0);
  }

  lemma NoPercent(s: Space)
    requires 0 < s.blockSize <= ALIGN
    ensures PercentBlocks(0, s) == 0
  {
    assert U64(s.total * 0) == 0;
    assert U64(s.Align() - 1) == s.Align() - 1;
  }

  lemma TalliedPercentage(parts: seq<Part>, r: Pass, n: nat, s: Space)
    requires Roomy(s) && s.total >= 100 && n < |parts| == |r.parts| && Tallied(parts, r, n, s) && r.total <= s.total
    requires r.err == Success && 1 <= parts[n].size <= 100
    ensures var r' := ResolveStep(r, n, s);
            && (r'.err == Success || r'.err == OutOfRange ==> r.total < s.total && Tallied(parts, r', n + 1, s))
            && (r'.err == NoSpace ==> r.total == s.total && r' == r.(err := NoSpace))
  {
    var wanted := PercentBlocks(parts[n].size, s);
    var blocks := Share(r.total, wanted, s.total);
    ShareFacts(parts[n].size, r.total, s, wanted, blocks);
    ShareFits(r.total, wanted, s.total);
    BlocksOf(blocks, s.blockSize);
    if blocks > 0 {
      TalliedWith(parts, r, n, s, blocks, blocks * s.blockSize);
    }
  }

  lemma TalliedNothing(parts: seq<Part>, r: Pass, n: nat, s: Space)
    requires 0 < s.blockSize <= ALIGN && n < |parts| == |r.parts| && Tallied(parts, r, n, s)
    requires r.total <= s.total < WORD && r.err == Success && parts[n].size == 0
    ensures var r' := ResolveStep(r, n, s); r'.err != NoSpace && Tallied(parts, r', n + 1, s)
  {
    NoPercent(s);
    BlocksOf(0, s.blockSize);
    TalliedWith(parts, r, n, s, 0, 0);
    assert r.parts[n := r.parts[n].(size := 0)] == r.parts;
  }

  lemma TalliedBytes(parts: seq<Part>, r: Pass, n: nat, s: Space)
    requires 0 < s.blockSize <= ALIGN && n < |parts| == |r.parts| && Tallied(parts, r, n, s)
    requires r.err == Success && parts[n].size > 100 && r.total + AlignUp(parts[n].size, ALIGN) < WORD
    ensures var r' := ResolveStep(r, n, s); r'.err != NoSpace && (r'.err != MisAligned ==> Tallied(parts, r', n + 1, s))
  {
    TalliedWith(parts, r, n, s, AlignUp(parts[n].size, ALIGN), parts[n].size);
    assert r.parts[n := r.parts[n].(size := parts[n].size)] == r.parts;
  }

  /** A percentage of more than nothing that finds all blocks used up. */
  ghost predicate LeftOut(parts: seq<Part>, after: seq<Part>, i: nat, s: Space)
    requires |after| == |parts| && 0 < s.blockSize <= ALIGN
  {
    && i < |parts| && 1 <= parts[i].size <= 100 && UsedBlocks(parts, after, i, s) == s.total
    && forall j | 0 <= j < i :: Resolved(parts, after, j, s)
  }

  ghost predicate Sized(parts: seq<Part>, r: Pass, n: nat, s: Space)
    requires n <= |parts| == |r.parts| && 0 < s.blockSize <= ALIGN
  {
    && (r.err == Success ==> Tallied(parts, r, n, s))
    && (r.err == NoSpace ==> exists i: nat :: LeftOut(parts, r.parts, i, s))
  }

  lemma SizedStep(parts: seq<Part>, r: Pass, n: nat, s: Space)
    requires Roomy(s) && s.total >= 100 && n < |parts| == |r.parts| && Tallied(parts, r, n, s) && r.err == Success
    requires if parts[n].size <= 100 then r.total <= s.total else r.total + AlignUp(parts[n].size, ALIGN) < WORD
    ensures Sized(parts, ResolveStep(r, n, s), n + 1, s)
  {
    if parts[n].size > 100 {
      TalliedBytes(parts, r, n, s);
    } else if parts[n].size == 0 {
      TalliedNothing(parts, r, n, s);
    } else {
      TalliedPercentage(parts, r, n, s);
      if ResolveStep(r, n, s).err == NoSpace {
        assert LeftOut(parts, r.parts, n, s);
      }
    }
  }

  /** Sizes and the count of blocks, for any table of which nothing wraps: percentages and sizes in bytes in any
      order. It is refused for lack of space only at a percentage that finds all blocks used up. */
  lemma {:induction false} SizesResolved(parts: seq<Part>, n: nat, s: Space)
    requires Roomy(s) && s.total >= 100 && Steady(parts, s) && n <= |parts|
    ensures Sized(parts, Resolve(parts, n, s), n, s)
  {
    if n > 0 {
      SizesResolved(parts, n - 1, s);
      var r := Resolve(parts, n - 1, s);
      assert SteadyAt(parts, n - 1, s);
      if r.err == Success {
        SizedStep(parts, r, n - 1, s);
      }
    }
  }

  /** Then the blocks are added up, and a table that asks for more than there are is refused. */
  lemma TotalChecked(parts: seq<Part>, s: Space, r: Pass)
    requires Roomy(s) && s.total >= 100 && Steady(parts, s) && r == Resolve(parts, |parts|, s) && r.err == Success
    ensures Validated(parts, s) ==
            if UsedBlocks(parts, r.parts, |parts|, s) > s.total then Done(NoSpace, r.parts)
            else Settle(r.parts, s.MinOffset(), s.MaxOffset())
  {
    ValidatedSteps(parts, s, r);
    SizesResolved(parts, |parts|, s);
  }
}
