/** Where checking a partition table falls short of what it is for, and exactly when. */
module ValidationLimits {
  import opened PartInfos
  import opened Placement
  import opened PlacementSafety
  import opened Validation

  /** A clipped share is the rest of the space exactly as long as no more than the space is gone already; after that
      the unsigned difference wraps to more than there ever was. */
  lemma ClippedShare(used: nat, wanted: nat, available: nat)
    requires used < WORD && available < WORD && Clipped(used, wanted, available)
    ensures Share(used, wanted, available) <= available <==> used <= available
    ensures used <= available ==> Share(used, wanted, available) == available - used
  {
  }

  // Explicit sizes are counted in bytes against a limit in blocks

  ghost predicate Explicit(parts: seq<Part>, s: Space) {
    forall i | 0 <= i < |parts| :: parts[i].size > 100 && parts[i].offset % ALIGN == 0 && !OutsideRange(parts[i], s)
  }

  lemma {:induction false} ExplicitPass(parts: seq<Part>, n: nat, s: Space)
    requires 0 < s.blockSize <= ALIGN && Explicit(parts, s) && n <= |parts| && RoundedSum(parts, |parts|) < WORD
    ensures Resolve(parts, n, s) == Pass(Success, parts, RoundedSum(parts, n))
  {
    if n == 0 {
    } else {
      ExplicitPass(parts, n - 1, s);
      RoundedSumGrows(parts, n, |parts|);
    }
  }

  /** So a table of explicit sizes is turned down exactly when its rounded bytes outnumber the blocks,
      however much room there is. */
  lemma ExplicitTurnedDown(parts: seq<Part>, s: Space)
    requires s.first > 0 && 0 < s.blockSize <= ALIGN && Explicit(parts, s) && RoundedSum(parts, |parts|) < WORD
    ensures Validated(parts, s) ==
            if RoundedSum(parts, |parts|) > s.total then Done(NoSpace, parts)
            else Settle(parts, s.MinOffset(), s.MaxOffset())
  {
    ExplicitPass(parts, |parts|, s);
    ValidatedSteps(parts, s, Resolve(parts, |parts|, s));
  }

  // A table whose offsets are all given is not looked at again

  lemma {:induction false} NoZeros(list: seq<Entry>)
    requires forall k | 0 <= k < |list| :: list[k].offset != 0
    ensures Zeros(list) == []
    decreases |list|
  {
    if list == [] {
    } else {
      NoZeros(list[..|list| - 1]);
    }
  }

  /** Settling a table whose offsets are all given succeeds and leaves it as it is: entries that overlap still do, and
      the table is in order of position exactly if it was before. */
  lemma FixedTableUnmoved(parts: seq<Part>, minOffset: nat, maxOffset: nat)
    requires forall i | 0 <= i < |parts| :: parts[i].offset != 0
    ensures Settle(parts, minOffset, maxOffset) == Done(Success, parts)
  {
    var v := Settle(parts, minOffset, maxOffset);
    NoZeros(Entries(parts));
    SettleKeeps(parts, minOffset, maxOffset);
    assert v.parts == parts;
  }

  // A table that is never finished

  const NO_INFO := Info([], seq(16, _ => 0), seq(16, _ => 0), 0)
  // 512-byte blocks, of which the first 2048 are taken, on a device of 512 MiB.
  const SMALL := Space(2048, 1046528, 512)
  // A partition of 1 MiB anywhere, and one of 1% at 1 MiB.
  const ENDLESS := [Part(0, 0x10_0000, NO_INFO), Part(0x10_0000, 1, NO_INFO)]
  // The size the second one gets.
  const WRAPPED: nat := 0x1_0000_0000_0000_0000 - 0x10_0000

  lemma EndlessSizes()
    ensures Resolve(ENDLESS, 2, SMALL) == Pass(Success, ENDLESS[1 := Part(0x10_0000, WRAPPED, NO_INFO)], 1046528)
  {
    var first := Resolve(ENDLESS, 1, SMALL);
    AlignUpFacts(0x10_0000, ALIGN);
    MultiplesApart(0x10_0000, AlignUp(0x10_0000, ALIGN));
    assert Resolve(ENDLESS, 0, SMALL) == Pass(Success, ENDLESS, 0);
    assert first == Pass(Success, ENDLESS, 0x10_0000);
    assert SMALL.Align() == 2048;
    AlignUpFacts(10465, 2048);
    var wanted := PercentBlocks(1, SMALL);
    assert U64(1046528 * 1) / 100 == 10465;
    assert 10465 <= wanted < 10465 + 2048;
    assert Share(0x10_0000, wanted, 1046528) == WORD - 2048;
    U64IsRemainder((WORD - 2048) * 512);
    assert U64((WORD - 2048) * 512) == WRAPPED;
    assert SMALL.MinOffset() == 0x10_0000 by {
      U64IsRemainder(2048 * 512);
    }
    assert SMALL.MaxOffset() == 536870911;
  }

  lemma EndlessPlacing()
    ensures Settling(ENDLESS[1 := Part(0x10_0000, WRAPPED, NO_INFO)], 0x10_0000, 536870911) == Forever
  {
    var parts := ENDLESS[1 := Part(0x10_0000, WRAPPED, NO_INFO)];
    var a, b := Entry(0, 0, 0x10_0000), Entry(1, 0x10_0000, WRAPPED);
    assert Entries(parts) == [a] + [b];
    ZerosPush([a], b);
    ZerosPush([], a);
    assert [] + [a] == [a];
    assert Zeros([]) == [] && NonZeros([]) == [];
    assert Zeros([a] + [b]) == [a] && NonZeros([a] + [b]) == [b];
    assert Sort([]) == [];
    SortPush([], b);
    assert [] + [b] == [b];
    assert Sort([b]) == [b];
    assert b.End() == 0;
    assert FindGap([b], 0, 0x10_0000, 536870911) == At(0);
  }

  /** On a small and ordinary input the program never returns: the explicit size uses up more than the blocks there
      are, the percentage gets a wrapped size, its end wraps to 0, and the free partition is placed at 0 for ever. */
  lemma NeverReturns()
    ensures Validated(ENDLESS, SMALL) == Hangs
  {
    EndlessSizes();
    EndlessPlacing();
    ValidatedSteps(ENDLESS, SMALL, Resolve(ENDLESS, 2, SMALL));
    assert SMALL.MinOffset() == 0x10_0000;
    assert SMALL.MaxOffset() == 536870911;
  }
}
