/** Whole runs of a buffered device: what a caller sees, and what is on the medium when the power goes. */
module Runs {
  import opened Bits
  import opened Bytes
  import opened Sectors
  import opened Cache
  import opened BlockDevices

  datatype Op =
    | ReadOp(address: nat, size: nat)
    | WriteOp(address: nat, src: seq<byte>)
    | EraseOp(address: nat, size: nat)
    | SyncOp
    | BuffersOp(count: nat)

  datatype Outcome = Outcome(ok: bool, data: seq<byte>)

  predicate InRange(op: Op, capacity: nat) {
    match op
    case ReadOp(a, n) => a + n <= capacity
    case WriteOp(a, src) => a + |src| <= capacity
    case EraseOp(a, n) => a + n <= capacity
    case _ => true
  }

  /** A flat byte array of fixed size, and whether byte addresses are allowed. */
  datatype Ideal = Ideal(bytes: seq<byte>, buffered: bool)

  /** What each operation does to the ideal device: no sectors, no cache, no failures but misalignment. */
  function IdealStep(op: Op, d: Ideal, shift: nat): (r: (Outcome, Ideal))
    requires InRange(op, |d.bytes|)
    ensures |r.1.bytes| == |d.bytes|
  {
    match op
    case ReadOp(a, n) =>
      if d.buffered || Whole(a, n, shift) then (Outcome(true, d.bytes[a..a + n]), d) else (Outcome(false, []), d)
    case WriteOp(a, src) =>
      if d.buffered || Whole(a, |src|, shift) then (Outcome(true, []), d.(bytes := Overlay(d.bytes, a, src)))
      else (Outcome(false, []), d)
    case EraseOp(a, n) =>
      if Whole(a, n, shift) then (Outcome(true, []), d.(bytes := Overlay(d.bytes, a, Zeros(n))))
      else (Outcome(false, []), d)
    case SyncOp => (Outcome(true, []), d)
    case BuffersOp(n) => (Outcome(n == 0 || n == Pow2(SizeBits(n)), []), d.(buffered := n != 0))
  }

  /** The outcomes of a whole run on the ideal device. */
  function IdealRun(ops: seq<Op>, d: Ideal, shift: nat): (r: (seq<Outcome>, Ideal))
    requires forall op | op in ops :: InRange(op, |d.bytes|)
    ensures |r.0| == |ops| && |r.1.bytes| == |d.bytes|
    decreases |ops|
  {
    if ops == [] then ([], d)
    else
      var n := |ops| - 1;
      var (out, d1) := IdealRun(ops[..n], d, shift);
      var (r, d2) := IdealStep(ops[n], d1, shift);
      (out + [r], d2)
  }

  /** The first done bytes of src have been written at a, and nothing else. */
  ghost predicate WroteBytes(f: seq<byte>, f': seq<byte>, a: nat, src: seq<byte>, done: nat) {
    done <= |src| && f' == Overlay(f, a, src[..done])
  }

  /** What any operation may do to the flat contents, raw failures included. */
  ghost predicate Allowed(op: Op, r: Outcome, buffered: bool, f: seq<byte>, f': seq<byte>)
    requires InRange(op, |f|)
  {
    match op
    case ReadOp(a, n) => f' == f && (r.ok ==> r.data == f[a..a + n])
    case WriteOp(a, src) =>
      && SameBytesOutside(f, f', a, |src|)
      && (buffered || r.ok ==> exists done: nat :: WroteBytes(f, f', a, src, done) && (r.ok ==> done == |src|))
    case EraseOp(a, n) => f' == if r.ok then Overlay(f, a, Zeros(n)) else f
    case _ => f' == f
  }

  ghost function IdealOf(dev: BlockDevice): Ideal
    reads dev
  {
    Ideal(Flat(dev.view), dev.buffers != [])
  }

  /** What one operation did: within what is allowed, and without raw faults exactly what the ideal device does. */
  twostate predicate Applied(dev: BlockDevice, op: Op, r: Outcome)
    requires InRange(op, |Flat(old(dev.view))|)
    reads dev, dev.Parts
  {
    && dev.Valid() && |dev.view| == old(|dev.view|)
    && Allowed(op, r, old(dev.buffers) != [], Flat(old(dev.view)), Flat(dev.view))
    && (if op.SyncOp? && r.ok then dev.past == Fresh(dev.view) else PastPlus(old(dev.past), dev.view, dev.past))
    && (InBounds(old(dev.slots), |dev.view|) && dev.faults == old(dev.faults) ==>
          InBounds(dev.slots, |dev.view|) && (r, IdealOf(dev)) == IdealStep(op, old(IdealOf(dev)), dev.sectorSizeShift))
  }

  /** What an operation that stopped the run did: an erase failed half way. */
  twostate predicate Stopped(dev: BlockDevice, op: Op)
    reads dev
  {
    && dev.faults > old(dev.faults) && dev.view == old(dev.view)
    && HalfErased(op, dev.sectorSizeShift, dev.atomicWrites, old(dev.medium), dev.medium, old(dev.past))
  }

  method ApplyRead(dev: BlockDevice, op: Op) returns (r: Outcome)
    requires op.ReadOp? && dev.Valid() && InRange(op, |Flat(dev.view)|)
    modifies dev, dev.Parts
    ensures Applied(dev, op, r) && dev.Parts == old(dev.Parts) && dev.faults >= old(dev.faults)
  {
    PastSame(dev.past, dev.view);
    FitsTag(dev.view, dev.sectorSize);
    var dst := new byte[op.size](_ => 0);
    var ok := dev.Read(op.address, dst, op.size);
    assert dst[..op.size] == dst[..];
    r := Outcome(ok, if ok then dst[..] else []);
  }

  method ApplyWrite(dev: BlockDevice, op: Op) returns (r: Outcome)
    requires op.WriteOp? && dev.Valid() && InRange(op, |Flat(dev.view)|)
    modifies dev, dev.Parts
    ensures Applied(dev, op, r) && dev.Parts == old(dev.Parts) && dev.faults >= old(dev.faults)
  {
    ghost var v := dev.view;
    FitsTag(v, dev.sectorSize);
    var ok, done := dev.Write(op.address, op.src);
    assert op.src[..|op.src|] == op.src;
    if dev.buffers == [] {
      WrittenDirectly(v, dev.view, op.address, |op.src|, dev.sectorSizeShift);
    }
    if dev.buffers != [] || ok {
      assert WroteBytes(Flat(v), Flat(dev.view), op.address, op.src, done);
    }
    r := Outcome(ok, []);
  }

  lemma WrittenDirectly(v: seq<Sector>, v': seq<Sector>, address: nat, size: nat, shift: nat)
    requires Uniform(v, Pow2(shift)) && Uniform(v', Pow2(shift)) && address + size <= |Flat(v)|
    requires SameOutside(v, v', Shift(address, shift), Shift(size, shift))
    requires !Whole(address, size, shift) ==> v' == v
    ensures SameBytesOutside(Flat(v), Flat(v'), address, size)
  {
    var s, n := Shift(address, shift), Shift(size, shift);
    if Whole(address, size, shift) {
      AlignedEnds(address, size, shift);
      AlignedRun(v, address, size, Pow2(shift), s, n);
      OutsideRun(v, v', Pow2(shift), s, n);
    }
  }

  lemma FitsTag(v: seq<Sector>, ss: nat)
    requires Uniform(v, ss) && |v| <= Buffers.INVALID
    ensures |Flat(v)| <= Buffers.INVALID * ss
  {
    FlatLength(v, ss);
    MulMonotone(ss, |v|, Buffers.INVALID);
  }

  /** Sector s is one the erase is about. */
  predicate Erased(op: Op, s: nat, shift: nat)
    requires op.EraseOp?
  {
    Shift(op.address, shift) <= s < Shift(op.address, shift) + Shift(op.size, shift)
  }

  /** What an erase that failed half way leaves: nothing but its own sectors has changed, and if raw sectors are never
      torn each of them holds a value on record or zeros. */
  ghost predicate HalfErased(op: Op, shift: nat, atomic: bool, before: seq<Sector>, after: seq<Sector>,
                             past: seq<set<Sector>>) {
    && op.EraseOp? && |after| == |before| == |past|
    && (forall s | 0 <= s < |before| :: after[s] == before[s] || Erased(op, s, shift))
    && (atomic ==> forall s | 0 <= s < |after| ::
          after[s] in past[s] || (Erased(op, s, shift) && after[s] == Zeros(Pow2(shift))))
  }

  lemma TornIsHalfErased(op: Op, shift: nat, atomic: bool, before: seq<Sector>, after: seq<Sector>, view: seq<Sector>,
                         past: seq<set<Sector>>)
    requires op.EraseOp? && Recorded(before, view, past, atomic)
    requires Torn(before, after, Shift(op.address, shift), Blank(Shift(op.size, shift), Pow2(shift)), atomic)
    ensures HalfErased(op, shift, atomic, before, after, past)
  {
  }

  /** After an erase that failed half way the buffers and the medium need not agree any more, and the run stops. */
  method ApplyErase(dev: BlockDevice, op: Op) returns (r: Outcome, stopped: bool)
    requires op.EraseOp? && dev.Valid() && InRange(op, |Flat(dev.view)|)
    modifies dev, dev.Parts
    ensures !stopped ==> Applied(dev, op, r)
    ensures dev.Parts == old(dev.Parts) && dev.faults >= old(dev.faults)
    ensures stopped ==> Stopped(dev, op)
  {
    PastSame(dev.past, dev.view);
    var before := dev.medium;
    var ok := dev.EraseRange(op.address, op.size);
    if !ok {
      TornIsHalfErased(op, dev.sectorSizeShift, dev.atomicWrites, before, dev.medium, dev.view, dev.past);
    }
    r, stopped := Outcome(ok, []), !ok && dev.medium != before;
  }

  method ApplySync(dev: BlockDevice, op: Op) returns (r: Outcome)
    requires op.SyncOp? && dev.Valid()
    modifies dev, dev.Parts
    ensures Applied(dev, op, r) && dev.Parts == old(dev.Parts) && dev.faults >= old(dev.faults)
    ensures r.ok ==> dev.medium == dev.view
  {
    PastSame(dev.past, dev.view);
    var ok := dev.Sync();
    r := Outcome(ok, []);
  }

  method ApplyBuffers(dev: BlockDevice, op: Op) returns (r: Outcome)
    requires op.BuffersOp? && dev.Valid()
    modifies dev, dev.Parts
    ensures fresh(dev.Parts - old(dev.Parts))
    ensures Applied(dev, op, r) && dev.faults >= old(dev.faults)
  {
    PastSame(dev.past, dev.view);
    var ok := dev.AllocateBuffers(op.count);
    r := Outcome(ok, []);
  }

  /** The logical sectors at some point of a run, and whether byte addresses were allowed then. */
  datatype Snapshot = Snapshot(view: seq<Sector>, buffered: bool)

  /** Sector s had the value x at some point of a run from step from on. */
  ghost predicate SeenSince(trace: seq<Snapshot>, from: nat, s: nat, x: Sector) {
    exists i | from <= i < |trace| && s < |trace[i].view| :: trace[i].view[s] == x
  }

  /** Every value on record is one the sector had at or after step from. */
  ghost predicate Explained(past: seq<set<Sector>>, trace: seq<Snapshot>, from: nat) {
    from < |trace| && forall s, x | 0 <= s < |past| && x in past[s] :: SeenSince(trace, from, s, x)
  }

  lemma ExplainedStep(past: seq<set<Sector>>, trace: seq<Snapshot>, from: nat, now: Snapshot, past': seq<set<Sector>>)
    requires Explained(past, trace, from) && PastPlus(past, now.view, past')
    ensures Explained(past', trace + [now], from)
  {
    forall s, x | 0 <= s < |past'| && x in past'[s] ensures SeenSince(trace + [now], from, s, x) {
      if x in past[s] {
        assert SeenSince(trace, from, s, x);
        var i :| from <= i < |trace| && s < |trace[i].view| && trace[i].view[s] == x;
        assert (trace + [now])[i].view[s] == x;
      } else {
        assert (trace + [now])[|trace|].view[s] == x;
      }
    }
  }

  lemma ExplainedFresh(trace: seq<Snapshot>, now: Snapshot)
    ensures Explained(Fresh(now.view), trace + [now], |trace|)
  {
    forall s, x | 0 <= s < |now.view| && x in Fresh(now.view)[s] ensures SeenSince(trace + [now], |trace|, s, x) {
      assert (trace + [now])[|trace|].view[s] == x;
    }
  }

  /** Every raw sector holds a whole value its logical sector has had at or after step from. */
  ghost predicate CrashSafe(medium: seq<Sector>, trace: seq<Snapshot>, from: nat) {
    forall s | 0 <= s < |medium| :: SeenSince(trace, from, s, medium[s])
  }

  /** The same for a crash in the middle of an erase, but for its own sectors, which may also be zeros. */
  ghost predicate CrashSafeBut(medium: seq<Sector>, trace: seq<Snapshot>, from: nat, op: Op, shift: nat) {
    && op.EraseOp?
    && forall s | 0 <= s < |medium| ::
         SeenSince(trace, from, s, medium[s]) || (Erased(op, s, shift) && medium[s] == Zeros(Pow2(shift)))
  }

  lemma StoppedSafe(op: Op, shift: nat, before: seq<Sector>, after: seq<Sector>, past: seq<set<Sector>>,
                    trace: seq<Snapshot>, from: nat)
    requires HalfErased(op, shift, true, before, after, past) && Explained(past, trace, from)
    ensures CrashSafeBut(after, trace, from, op, shift)
  {
  }

  predicate Synced(op: Op, r: Outcome) {
    op.SyncOp? && r.ok
  }

  /** The trace of a run: every operation did what it may, and synced is the point of the last successful sync. */
  ghost predicate History(ops: seq<Op>, results: seq<Outcome>, trace: seq<Snapshot>, synced: nat) {
    && |trace| == |results| + 1 && |results| <= |ops| && synced <= |results|
    && (forall i | 0 <= i < |results| :: StepOk(ops[i], results[i], trace[i], trace[i + 1]))
    && (synced > 0 ==> Synced(ops[synced - 1], results[synced - 1]))
    && (forall i | synced <= i < |results| :: !Synced(ops[i], results[i]))
  }

  ghost predicate StepOk(op: Op, r: Outcome, before: Snapshot, after: Snapshot) {
    InRange(op, |Flat(before.view)|) && Allowed(op, r, before.buffered, Flat(before.view), Flat(after.view))
  }

  /** Every point of the trace is a medium of n sectors of ss bytes. */
  ghost predicate InSectors(trace: seq<Snapshot>, n: nat, ss: nat) {
    forall i | 0 <= i < |trace| :: Medium(trace[i].view, n, ss)
  }

  ghost predicate Medium(v: seq<Sector>, n: nat, ss: nat) {
    |v| == n && Uniform(v, ss)
  }

  lemma InSectorsStep(trace: seq<Snapshot>, now: Snapshot, n: nat, ss: nat)
    requires InSectors(trace, n, ss) && Medium(now.view, n, ss)
    ensures InSectors(trace + [now], n, ss)
  {
  }

  lemma HistoryStep(ops: seq<Op>, results: seq<Outcome>, trace: seq<Snapshot>, synced: nat, r: Outcome, now: Snapshot)
    requires History(ops, results, trace, synced) && |results| < |ops|
    requires StepOk(ops[|results|], r, trace[|results|], now)
    ensures var n := |results|;
            History(ops, results + [r], trace + [now], if Synced(ops[n], r) then n + 1 else synced)
  {
    var n := |results|;
    forall i | 0 <= i <= n ensures StepOk(ops[i], (results + [r])[i], (trace + [now])[i], (trace + [now])[i + 1]) {
    }
  }

  lemma IdealRunStep(ops: seq<Op>, i: nat, d: Ideal, shift: nat, results: seq<Outcome>, e: Ideal, r: Outcome, e': Ideal)
    requires i < |ops| && forall op | op in ops :: InRange(op, |d.bytes|)
    requires (results, e) == IdealRun(ops[..i], d, shift)
    requires (r, e') == IdealStep(ops[i], e, shift)
    ensures (results + [r], e') == IdealRun(ops[..i + 1], d, shift)
  {
    assert ops[..i + 1][..i] == ops[..i];
  }

  /** One operation of a run. */
  method Apply(dev: BlockDevice, op: Op) returns (r: Outcome, stopped: bool)
    requires dev.Valid() && InRange(op, |Flat(dev.view)|)
    modifies dev, dev.Parts
    ensures fresh(dev.Parts - old(dev.Parts)) && dev.faults >= old(dev.faults)
    ensures !stopped ==> Applied(dev, op, r) && |Flat(dev.view)| == old(|Flat(dev.view)|)
    ensures stopped ==> Stopped(dev, op)
  {
    stopped := false;
    match op {
      case ReadOp(_, _) => r := ApplyRead(dev, op);
      case WriteOp(_, _) => r := ApplyWrite(dev, op);
      case EraseOp(_, _) => r, stopped := ApplyErase(dev, op);
      case SyncOp => r := ApplySync(dev, op);
      case BuffersOp(_) => r := ApplyBuffers(dev, op);
    }
    if !stopped {
      FlatLength(dev.view, dev.sectorSize);
      FlatLength(old(dev.view), dev.sectorSize);
    }
  }

  ghost function Now(dev: BlockDevice): Snapshot
    reads dev
  {
    Snapshot(dev.view, dev.buffers != [])
  }

  /** The state of a run after some of its operations, started on the ideal device d with f0 raw faults so far. */
  ghost predicate Running(dev: BlockDevice, ops: seq<Op>, results: seq<Outcome>, trace: seq<Snapshot>, synced: nat,
                          d: Ideal, f0: nat)
    requires forall op | op in ops :: InRange(op, |d.bytes|)
    reads dev, dev.Parts
  {
    && dev.Valid() && |Flat(dev.view)| == |d.bytes| && dev.faults >= f0
    && History(ops, results, trace, synced) && trace[|results|] == Now(dev)
    && Explained(dev.past, trace, synced) && InSectors(trace, |dev.view|, dev.sectorSize)
    && (dev.faults == f0 ==>
          && InBounds(dev.slots, |dev.view|)
          && (results, IdealOf(dev)) == IdealRun(ops[..|results|], d, dev.sectorSizeShift))
  }

  method RunStep(dev: BlockDevice, ops: seq<Op>, results: seq<Outcome>, ghost trace: seq<Snapshot>, ghost synced: nat,
                 ghost d: Ideal, ghost f0: nat)
    returns (r: Outcome, stopped: bool, ghost synced': nat)
    requires forall op | op in ops :: InRange(op, |d.bytes|)
    requires Running(dev, ops, results, trace, synced, d, f0) && |results| < |ops|
    modifies dev, dev.Parts
    ensures fresh(dev.Parts - old(dev.Parts))
    ensures stopped ==> dev.faults > f0 && dev.view == old(dev.view) && |dev.medium| == |dev.view|
    ensures stopped && dev.atomicWrites ==>
              CrashSafeBut(dev.medium, trace, synced, ops[|results|], dev.sectorSizeShift)
    ensures !stopped ==> Running(dev, ops, results + [r], trace + [Now(dev)], synced', d, f0)
  {
    ghost var past0, before0, before, op := dev.past, dev.medium, IdealOf(dev), ops[|results|];
    synced' := synced;
    r, stopped := Apply(dev, ops[|results|]);
    if stopped {
      if dev.atomicWrites {
        StoppedSafe(op, dev.sectorSizeShift, before0, dev.medium, past0, trace, synced);
      }
      return;
    }
    if Synced(op, r) {
      ExplainedFresh(trace, Now(dev));
      synced' := |results| + 1;
    } else {
      ExplainedStep(past0, trace, synced, Now(dev), dev.past);
    }
    HistoryStep(ops, results, trace, synced, r, Now(dev));
    InSectorsStep(trace, Now(dev), |dev.view|, dev.sectorSize);
    if dev.faults == f0 {
      IdealRunStep(ops, |results|, d, dev.sectorSizeShift, results, before, r, IdealOf(dev));
    }
  }

  /** Any run, with any raw failures, from a freshly opened or synced device. Without faults the outcomes are those of
      the ideal flat device; and if raw sector writes are atomic, every raw sector then holds a whole value its
      logical sector has had at or after the last successful sync. A run stops early only at an erase that fails half
      way, and then the sectors of that erase may also be zeros. */
  method Run(dev: BlockDevice, ops: seq<Op>)
    returns (results: seq<Outcome>, stopped: bool, ghost trace: seq<Snapshot>, ghost synced: nat)
    requires dev.Valid() && InBounds(dev.slots, |dev.view|) && dev.past == Fresh(dev.view)
    requires forall op | op in ops :: InRange(op, |Flat(dev.view)|)
    modifies dev, dev.Parts
    ensures History(ops, results, trace, synced) && trace[0] == old(Now(dev))
    ensures InSectors(trace, |dev.view|, dev.sectorSize) && |dev.view| == old(|dev.view|)
    ensures stopped ==> dev.faults > old(dev.faults) && |results| < |ops|
    ensures stopped ==> dev.view == trace[|results|].view && |dev.medium| == |dev.view|
    ensures !stopped ==> |results| == |ops| && dev.Valid() && trace[|results|] == Now(dev)
    ensures dev.faults == old(dev.faults) ==>
              (results, IdealOf(dev)) == IdealRun(ops, old(IdealOf(dev)), dev.sectorSizeShift)
    ensures dev.atomicWrites ==>
              if stopped then CrashSafeBut(dev.medium, trace, synced, ops[|results|], dev.sectorSizeShift)
              else CrashSafe(dev.medium, trace, synced)
  {
    ghost var d, f0 := IdealOf(dev), dev.faults;
    ExplainedFresh([], Now(dev));
    assert [] + [Now(dev)] == [Now(dev)];
    results, stopped, trace, synced := RunFrom(dev, ops, d, f0);
    assert ops[..|ops|] == ops;
  }

  /** The loop of a run. */
  method RunFrom(dev: BlockDevice, ops: seq<Op>, ghost d: Ideal, ghost f0: nat)
    returns (results: seq<Outcome>, stopped: bool, ghost trace: seq<Snapshot>, ghost synced: nat)
    requires forall op | op in ops :: InRange(op, |d.bytes|)
    requires Running(dev, ops, [], [Now(dev)], 0, d, f0)
    modifies dev, dev.Parts
    ensures History(ops, results, trace, synced) && trace[0] == old(Now(dev))
    ensures InSectors(trace, |dev.view|, dev.sectorSize) && |dev.view| == old(|dev.view|)
    ensures stopped ==> dev.faults > f0 && |results| < |ops|
    ensures stopped ==> dev.view == trace[|results|].view && |dev.medium| == |dev.view|
    ensures stopped && dev.atomicWrites ==>
              CrashSafeBut(dev.medium, trace, synced, ops[|results|], dev.sectorSizeShift)
    ensures !stopped ==> |results| == |ops| && Running(dev, ops, results, trace, synced, d, f0)
  {
    results, stopped, trace, synced := [], false, [Now(dev)], 0;
    while |results| < |ops|
      invariant fresh(dev.Parts - old(dev.Parts)) && |results| <= |ops|
      invariant Running(dev, ops, results, trace, synced, d, f0) && trace[0] == old(Now(dev))
    {
      var r;
      ghost var synced';
      r, stopped, synced' := RunStep(dev, ops, results, trace, synced, d, f0);
      if stopped {
        return;
      }
      results, trace, synced := results + [r], trace + [Now(dev)], synced';
    }
  }
}
