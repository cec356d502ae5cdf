/** What a scan lists of the records of any boot records, followed from one extended partition to the next. */
module MbrListings {
  import opened Bits
  import opened Bytes
  import opened Sectors
  import opened PartInfos
  import opened MbrLayout
  import opened GptImage
  import opened ScanSpec
  import opened DiskBytes
  import opened Picks

  // Names

  /** The number that decimal digits stand for. */
  function Value(s: seq<byte>): int {
    if s == [] then 0 else 10 * Value(s[..|s| - 1]) + s[|s| - 1] - 48
  }

  /** The decimal digits of a number: none but digits, no zero in front, and their value. */
  lemma {:induction false} DecimalDigits(n: nat)
    ensures var s := Decimal(n);
            && |s| > 0 && Value(s) == n && (forall i | 0 <= i < |s| :: 48 <= s[i] <= 57)
            && (n > 0 ==> s[0] != 48) && (n == 0 ==> |s| == 1)
    decreases n
  {
    var s := Decimal(n);
    if n < 10 {
      assert s[..0] == [];
    } else {
      DecimalDigits(n / 10);
      assert s[..|s| - 1] == Decimal(n / 10);
    }
  }

  /** "mbr" and the digits of n. */
  ghost predicate NamedMbr(name: seq<byte>, n: nat) {
    && |name| > 3 && name[0] == 109 && name[1] == 98 && name[2] == 114
    && Value(name[3..]) == n && (forall i | 3 <= i < |name| :: 48 <= name[i] <= 57)
    && (if n > 0 then name[3] != 48 else |name| == 4)
  }

  lemma MbrNamed(n: nat)
    ensures NamedMbr(MbrName(n), n)
  {
    DecimalDigits(n);
    assert MbrName(n)[3..] == Decimal(n);
  }

  // Records

  function TypeOf(s: Sector, i: nat): byte
    requires |s| >= 512 && i < 4
  {
    s[446 + 16 * i + 4]
  }

  /** First sector and number of sectors, as they stand in record i. */
  function StartIn(s: Sector, i: nat): nat
    requires |s| >= 512 && i < 4
  {
    FromLE(s[446 + 16 * i + 8..446 + 16 * i + 12])
  }

  function CountIn(s: Sector, i: nat): nat
    requires |s| >= 512 && i < 4
  {
    FromLE(s[446 + 16 * i + 12..446 + 16 * i + 16])
  }

  predicate Used(s: Sector, i: nat)
    requires |s| >= 512 && i < 4
  {
    StartIn(s, i) != 0 && CountIn(s, i) != 0
  }

  /** The first sector of record i of the boot record in sector b, in 32 bits. */
  function FirstOf(v: seq<Sector>, b: nat, i: nat): nat
    requires Long(v) && b < |v| && i < 4
  {
    (StartIn(v[b], i) + b) % 0x1_0000_0000
  }

  /** Record i of sector b is in use and its first sector can be read. */
  predicate Reached(v: seq<Sector>, b: nat, i: nat)
    requires Long(v) && b < |v| && i < 4
  {
    Used(v[b], i) && FirstOf(v, b, i) < |v|
  }

  /** Record i leads to another boot record. */
  predicate Leads(v: seq<Sector>, b: nat, i: nat)
    requires Long(v) && b < |v| && i < 4
  {
    Reached(v, b, i) && TypeOf(v[b], i) == 0x05
  }

  /** A boot record that is gone through, and the first record in it that leads to another; 4 if none does. */
  datatype Stop = Stop(sector: nat, turn: nat)

  ghost predicate StopsAt(v: seq<Sector>, stop: Stop)
    requires Long(v)
  {
    && stop.sector < |v| && stop.turn <= 4 && (stop.turn < 4 ==> Leads(v, stop.sector, stop.turn))
    && forall i | 0 <= i < stop.turn :: !Leads(v, stop.sector, i)
  }

  /** The scan goes on behind the turn in the sector it leads to, if there is one. */
  ghost predicate GoesOn(v: seq<Sector>, p: seq<Stop>, j: nat)
    requires Long(v) && j < |p| && StopsAt(v, p[j])
  {
    if j + 1 < |p| then p[j].turn < 4 && p[j + 1].sector == FirstOf(v, p[j].sector, p[j].turn) else p[j].turn == 4
  }

  /** All boot records that are gone through, in order. */
  ghost predicate Chain(v: seq<Sector>, p: seq<Stop>)
    requires Long(v)
  {
    (forall j | 0 <= j < |p| :: StopsAt(v, p[j])) && (forall j | 0 <= j < |p| :: GoesOn(v, p, j))
  }

  /** Record i is listed: it comes before the turn, and its first sector can be read. */
  predicate Shown(v: seq<Sector>, stop: Stop, i: nat)
    requires Long(v) && stop.sector < |v| && i < 4
  {
    Reached(v, stop.sector, i) && i < stop.turn
  }

  // All of them in a row

  /** Record n % 4 of the (n / 4)-th boot record of the chain is listed. */
  predicate ShownAt(v: seq<Sector>, p: seq<Stop>, n: nat)
    requires Long(v) && n < 4 * |p| && p[n / 4].sector < |v|
  {
    Shown(v, p[n / 4], n % 4)
  }

  ghost predicate Within(v: seq<Sector>, p: seq<Stop>) {
    forall j | 0 <= j < |p| :: p[j].sector < |v|
  }

  ghost function Flags(v: seq<Sector>, p: seq<Stop>): (flags: seq<bool>)
    requires Long(v) && Within(v, p)
    ensures |flags| == 4 * |p| && forall n | 0 <= n < 4 * |p| :: flags[n] == ShownAt(v, p, n)
  {
    seq(4 * |p|, n requires 0 <= n < 4 * |p| => ShownAt(v, p, n))
  }

  /** What record i of sector b becomes as the partition of the given number. */
  ghost function Item(cfg: Config, v: seq<Sector>, b: nat, i: nat, number: nat, shift: nat): Part
    requires Long(v) && b < |v| && i < 4
  {
    var first := FirstOf(v, b, i);
    if first < |v| then MbrPart(cfg, v[first], Seen(TypeOf(v[b], i), first, CountIn(v[b], i)), number, shift)
    else Part(0, 0, Info([], NO_GUID, NO_GUID, 0))
  }

  ghost function ItemAt(cfg: Config, v: seq<Sector>, p: seq<Stop>, n: nat, number: nat, shift: nat): Part
    requires Long(v) && n < 4 * |p| && p[n / 4].sector < |v|
  {
    Item(cfg, v, p[n / 4].sector, n % 4, number, shift)
  }

  /** The number of the partition that record n becomes, if it is listed: counted from 1, in 16 bits. */
  ghost function NumberAt(flags: seq<bool>, n: nat): nat
    requires n <= |flags|
  {
    (Rank(flags, n) + 1) % 0x1_0000
  }

  ghost function Items(cfg: Config, v: seq<Sector>, p: seq<Stop>, flags: seq<bool>, shift: nat): (items: seq<Part>)
    requires Long(v) && Within(v, p) && |flags| == 4 * |p|
    ensures |items| == 4 * |p|
    ensures forall n | 0 <= n < 4 * |p| :: items[n] == ItemAt(cfg, v, p, n, NumberAt(flags, n), shift)
  {
    seq(4 * |p|, n requires 0 <= n < 4 * |p| => ItemAt(cfg, v, p, n, NumberAt(flags, n), shift))
  }

  /** One record more. */
  lemma RecordsMore(v: seq<Sector>, b: nat, n: nat)
    requires Long(v) && b < |v| && n < 4
    ensures Records(v[b], b, n + 1) ==
            Records(v[b], b, n) +
            if Used(v[b], n) then [Seen(TypeOf(v[b], n), FirstOf(v, b, n), CountIn(v[b], n))] else []
  {
  }

  lemma {:induction false} RecordsPrefix(v: seq<Sector>, b: nat, n: nat, m: nat)
    requires Long(v) && b < |v| && n <= m == 4
    ensures Records(v[b], b, n) <= Records(v[b], b, m)
    decreases m - n
  {
    if n < m {
      RecordsPrefix(v, b, n + 1, m);
      RecordsMore(v, b, n);
    }
  }

  /** How many records before the n-th are in use. */
  ghost function UsedBefore(v: seq<Sector>, b: nat, n: nat): nat
    requires Long(v) && b < |v| && n <= 4
  {
    |Records(v[b], b, n)|
  }

  /** The records read of sector b. */
  ghost predicate Read(v: seq<Sector>, b: nat, recs: seq<Seen>, m: nat)
    requires Long(v)
  {
    b < |v| && m == 4 && recs == Records(v[b], b, m)
  }

  /** Where record n is among those read. */
  lemma RecordRead(v: seq<Sector>, b: nat, n: nat, recs: seq<Seen>, m: nat)
    requires Long(v) && Read(v, b, recs, m) && n < 4
    ensures if Used(v[b], n) then
              && UsedBefore(v, b, n) < |recs| && UsedBefore(v, b, n + 1) == UsedBefore(v, b, n) + 1
              && recs[UsedBefore(v, b, n)] == Seen(TypeOf(v[b], n), FirstOf(v, b, n), CountIn(v[b], n))
            else UsedBefore(v, b, n + 1) == UsedBefore(v, b, n)
  {
    RecordsMore(v, b, n);
    RecordsPrefix(v, b, n + 1, m);
  }

  // Going through them

  lemma RestSkips(cfg: Config, v: seq<Sector>, shift: nat, b: nat, i: nat, recs: seq<Seen>, m: nat, k: nat, id: nat,
                  n: nat)
    requires Long(v) && Read(v, b, recs, m) && i < 4 && k == UsedBefore(v, b, i) && Exhausts(v, recs, k, n)
    requires !Reached(v, b, i)
    ensures Exhausts(v, recs, UsedBefore(v, b, i + 1), n)
    ensures MbrFrom(cfg, v, shift, recs, k, id, n) == MbrFrom(cfg, v, shift, recs, UsedBefore(v, b, i + 1), id, n)
  {
    RecordRead(v, b, i, recs, m);
    if Used(v[b], i) {
      ExhaustsMore(v, recs, k + 1, n - 1, n);
      MbrFromAny(cfg, v, shift, recs, k + 1, id, n - 1, n);
    }
  }

  lemma RestTurns(cfg: Config, v: seq<Sector>, shift: nat, b: nat, i: nat, recs: seq<Seen>, m: nat, k: nat, id: nat,
                  n: nat, b': nat, recs': seq<Seen>)
    requires Long(v) && Read(v, b, recs, m) && i < 4 && k == UsedBefore(v, b, i) && Exhausts(v, recs, k, n)
    requires Leads(v, b, i) && b' == FirstOf(v, b, i) && Read(v, b', recs', m)
    ensures n > 0 && Exhausts(v, recs', 0, n - 1)
    ensures MbrFrom(cfg, v, shift, recs, k, id, n) == MbrFrom(cfg, v, shift, recs', 0, id, n - 1)
  {
    RecordRead(v, b, i, recs, m);
  }

  lemma RestTakes(cfg: Config, v: seq<Sector>, shift: nat, b: nat, i: nat, recs: seq<Seen>, m: nat, k: nat, id: nat,
                  n: nat)
    requires Long(v) && Read(v, b, recs, m) && i < 4 && k == UsedBefore(v, b, i) && Exhausts(v, recs, k, n)
    requires Reached(v, b, i) && !Leads(v, b, i)
    ensures n > 0 && k + 1 == UsedBefore(v, b, i + 1) && Exhausts(v, recs, k + 1, n - 1)
    ensures MbrFrom(cfg, v, shift, recs, k, id, n) ==
            Cons(Item(cfg, v, b, i, NextId(id), shift), MbrFrom(cfg, v, shift, recs, k + 1, NextId(id), n - 1))
  {
    RecordRead(v, b, i, recs, m);
  }

  lemma PositionOf(j: nat, i: nat)
    requires i < 4
    ensures (4 * j + i) / 4 == j && (4 * j + i) % 4 == i
  {
  }

  lemma CountsOn(r: nat, id: nat)
    requires id == r % 0x1_0000
    ensures NextId(id) == (r + 1) % 0x1_0000
  {
  }

  ghost function PickFrom(flags: seq<bool>, items: seq<Part>, pos: nat): Listing
    requires |items| == |flags| && pos <= |flags|
  {
    Listing(Pick(flags[pos..], items[pos..]), true)
  }

  /** Position pos is record i of a boot record; the flag and the item there are those of that record. */
  ghost predicate Here(cfg: Config, v: seq<Sector>, shift: nat, flags: seq<bool>, items: seq<Part>, stop: Stop, i: nat,
                       pos: nat)
    requires Long(v)
  {
    && StopsAt(v, stop) && i < 4 && pos < |flags| == |items|
    && flags[pos] == Shown(v, stop, i) && items[pos] == Item(cfg, v, stop.sector, i, NumberAt(flags, pos), shift)
  }

  ghost predicate HereAt(cfg: Config, v: seq<Sector>, p: seq<Stop>, shift: nat, flags: seq<bool>, items: seq<Part>,
                         j: nat, i: nat)
    requires Long(v) && j < |p|
  {
    Here(cfg, v, shift, flags, items, p[j], i, 4 * j + i)
  }

  /** The flags and items of the j-th boot record are in their places, and the chain goes on behind it. */
  ghost predicate LaidAt(cfg: Config, v: seq<Sector>, p: seq<Stop>, shift: nat, flags: seq<bool>, items: seq<Part>,
                         j: nat)
    requires Long(v) && j < |p|
  {
    && StopsAt(v, p[j]) && GoesOn(v, p, j)
    && forall i: nat | i < 4 :: HereAt(cfg, v, p, shift, flags, items, j, i)
  }

  ghost predicate Laid(cfg: Config, v: seq<Sector>, p: seq<Stop>, shift: nat, flags: seq<bool>, items: seq<Part>)
    requires Long(v)
  {
    |flags| == |items| == 4 * |p| && forall j: nat | j < |p| :: LaidAt(cfg, v, p, shift, flags, items, j)
  }

  lemma IsLaid(cfg: Config, v: seq<Sector>, p: seq<Stop>, shift: nat, flags: seq<bool>)
    requires Long(v) && Chain(v, p) && flags == Flags(v, p)
    ensures Laid(cfg, v, p, shift, flags, Items(cfg, v, p, flags, shift))
  {
    var items := Items(cfg, v, p, flags, shift);
    forall j: nat | j < |p| ensures LaidAt(cfg, v, p, shift, flags, items, j) {
      assert StopsAt(v, p[j]) && GoesOn(v, p, j);
      forall i: nat | i < 4 ensures HereAt(cfg, v, p, shift, flags, items, j, i) {
        PositionOf(j, i);
      }
    }
  }

  lemma NoneBehind(cfg: Config, v: seq<Sector>, p: seq<Stop>, shift: nat, flags: seq<bool>, items: seq<Part>, j: nat)
    requires Long(v) && j < |p| && LaidAt(cfg, v, p, shift, flags, items, j)
    ensures 4 * j + 4 <= |flags| == |items| && forall k | 4 * j + p[j].turn <= k < 4 * j + 4 :: !flags[k]
  {
    assert HereAt(cfg, v, p, shift, flags, items, j, 3);
    forall k | 4 * j + p[j].turn <= k < 4 * j + 4 ensures !flags[k] {
      assert HereAt(cfg, v, p, shift, flags, items, j, k - 4 * j);
    }
  }

  /** From a place in the chain on, what is found is what is shown. */
  ghost predicate Finds(cfg: Config, v: seq<Sector>, shift: nat, flags: seq<bool>, items: seq<Part>, pos: nat,
                        recs: seq<Seen>, k: nat, id: nat, n: nat)
    requires Long(v) && Exhausts(v, recs, k, n) && |items| == |flags| && pos <= |flags|
  {
    MbrFrom(cfg, v, shift, recs, k, id, n) == PickFrom(flags, items, pos)
  }

  lemma FindSkips(cfg: Config, v: seq<Sector>, shift: nat, flags: seq<bool>, items: seq<Part>, stop: Stop, i: nat,
                  pos: nat, recs: seq<Seen>, m: nat, k: nat, id: nat, n: nat)
    requires Long(v) && Here(cfg, v, shift, flags, items, stop, i, pos) && Read(v, stop.sector, recs, m)
    requires k == UsedBefore(v, stop.sector, i) && Exhausts(v, recs, k, n) && !Reached(v, stop.sector, i)
    ensures var k' := UsedBefore(v, stop.sector, i + 1);
            && Exhausts(v, recs, k', n) && Rank(flags, pos + 1) == Rank(flags, pos)
            && (Finds(cfg, v, shift, flags, items, pos + 1, recs, k', id, n) ==>
                  Finds(cfg, v, shift, flags, items, pos, recs, k, id, n))
  {
    RestSkips(cfg, v, shift, stop.sector, i, recs, m, k, id, n);
    PickStep(flags, items, pos);
  }

  lemma FindTakes(cfg: Config, v: seq<Sector>, shift: nat, flags: seq<bool>, items: seq<Part>, stop: Stop, i: nat,
                  pos: nat, recs: seq<Seen>, m: nat, k: nat, id: nat, n: nat)
    requires Long(v) && Here(cfg, v, shift, flags, items, stop, i, pos) && Read(v, stop.sector, recs, m)
    requires k == UsedBefore(v, stop.sector, i) && Exhausts(v, recs, k, n)
    requires Reached(v, stop.sector, i) && i < stop.turn && id == Rank(flags, pos) % 0x1_0000
    ensures n > 0 && k + 1 == UsedBefore(v, stop.sector, i + 1) && Exhausts(v, recs, k + 1, n - 1)
    ensures NextId(id) == Rank(flags, pos + 1) % 0x1_0000
    ensures Finds(cfg, v, shift, flags, items, pos + 1, recs, k + 1, NextId(id), n - 1) ==>
              Finds(cfg, v, shift, flags, items, pos, recs, k, id, n)
  {
    RestTakes(cfg, v, shift, stop.sector, i, recs, m, k, id, n);
    PickStep(flags, items, pos);
    CountsOn(Rank(flags, pos), id);
  }

  /** One record, listed or not, before the turn. */
  lemma FindRecord(cfg: Config, v: seq<Sector>, shift: nat, flags: seq<bool>, items: seq<Part>, stop: Stop, i: nat,
                   pos: nat, recs: seq<Seen>, m: nat, k: nat, id: nat, n: nat)
    returns (k': nat, id': nat, n': nat)
    requires Long(v) && Here(cfg, v, shift, flags, items, stop, i, pos) && Read(v, stop.sector, recs, m)
    requires k == UsedBefore(v, stop.sector, i) && Exhausts(v, recs, k, n) && i < stop.turn
    requires id == Rank(flags, pos) % 0x1_0000
    ensures k' == UsedBefore(v, stop.sector, i + 1) && Exhausts(v, recs, k', n')
    ensures id' == Rank(flags, pos + 1) % 0x1_0000
    ensures Finds(cfg, v, shift, flags, items, pos + 1, recs, k', id', n') ==>
              Finds(cfg, v, shift, flags, items, pos, recs, k, id, n)
  {
    k' := UsedBefore(v, stop.sector, i + 1);
    if Reached(v, stop.sector, i) {
      FindTakes(cfg, v, shift, flags, items, stop, i, pos, recs, m, k, id, n);
      id', n' := NextId(id), n - 1;
    } else {
      FindSkips(cfg, v, shift, flags, items, stop, i, pos, recs, m, k, id, n);
      id', n' := id, n;
    }
  }

  lemma FindTurns(cfg: Config, v: seq<Sector>, shift: nat, flags: seq<bool>, items: seq<Part>, stop: Stop, pos: nat,
                  next: nat, recs: seq<Seen>, m: nat, k: nat, id: nat, n: nat, b': nat, recs': seq<Seen>)
    requires Long(v) && StopsAt(v, stop) && stop.turn < 4 && Read(v, stop.sector, recs, m)
    requires k == UsedBefore(v, stop.sector, stop.turn) && Exhausts(v, recs, k, n)
    requires b' == FirstOf(v, stop.sector, stop.turn) && Read(v, b', recs', m)
    requires pos <= next <= |flags| == |items| && forall k | pos <= k < next :: !flags[k]
    ensures n > 0 && Exhausts(v, recs', 0, n - 1) && Rank(flags, next) == Rank(flags, pos)
    ensures Finds(cfg, v, shift, flags, items, next, recs', 0, id, n - 1) ==>
              Finds(cfg, v, shift, flags, items, pos, recs, k, id, n)
  {
    RestTurns(cfg, v, shift, stop.sector, stop.turn, recs, m, k, id, n, b', recs');
    PickNone(flags, items, pos, next);
  }

  lemma FindEnds(cfg: Config, v: seq<Sector>, shift: nat, flags: seq<bool>, items: seq<Part>, b: nat, i: nat,
                 recs: seq<Seen>, m: nat, k: nat, id: nat, n: nat)
    requires Long(v) && Read(v, b, recs, m) && i == m && k == UsedBefore(v, b, i) && Exhausts(v, recs, k, n)
    requires |items| == |flags|
    ensures Finds(cfg, v, shift, flags, items, |flags|, recs, k, id, n)
  {
    assert k == |recs|;
  }

  /** From record i of the j-th boot record on, what is found is what is shown. */
  lemma {:induction false} ChainListing(cfg: Config, v: seq<Sector>, shift: nat, p: seq<Stop>, flags: seq<bool>,
                                        items: seq<Part>, j: nat, i: nat, pos: nat, recs: seq<Seen>, m: nat, k: nat,
                                        id: nat, n: nat)
    requires Long(v) && Laid(cfg, v, p, shift, flags, items)
    requires j < |p| && i <= p[j].turn && i <= 4 && pos == 4 * j + i && Read(v, p[j].sector, recs, m)
    requires k == UsedBefore(v, p[j].sector, i) && Exhausts(v, recs, k, n) && id == Rank(flags, pos) % 0x1_0000
    ensures Finds(cfg, v, shift, flags, items, pos, recs, k, id, n)
    decreases |p| - j, 4 - i, 1
  {
    assert LaidAt(cfg, v, p, shift, flags, items, j);
    if i == 4 {
      FindEnds(cfg, v, shift, flags, items, p[j].sector, i, recs, m, k, id, n);
    } else if i == p[j].turn {
      ChainTurn(cfg, v, shift, p, flags, items, j, i, pos, recs, m, k, id, n);
    } else {
      ChainRecord(cfg, v, shift, p, flags, items, j, i, pos, recs, m, k, id, n);
    }
  }

  lemma {:induction false} ChainTurn(cfg: Config, v: seq<Sector>, shift: nat, p: seq<Stop>, flags: seq<bool>,
                                     items: seq<Part>, j: nat, i: nat, pos: nat, recs: seq<Seen>, m: nat, k: nat,
                                     id: nat, n: nat)
    requires Long(v) && Laid(cfg, v, p, shift, flags, items)
    requires j < |p| && i <= p[j].turn && i <= 4 && pos == 4 * j + i && Read(v, p[j].sector, recs, m)
    requires k == UsedBefore(v, p[j].sector, i) && Exhausts(v, recs, k, n) && id == Rank(flags, pos) % 0x1_0000
    requires i == p[j].turn < 4
    ensures Finds(cfg, v, shift, flags, items, pos, recs, k, id, n)
    decreases |p| - j, 4 - i, 0
  {
    assert LaidAt(cfg, v, p, shift, flags, items, j) && LaidAt(cfg, v, p, shift, flags, items, j + 1);
    var b', next := p[j + 1].sector, 4 * j + 4;
    var recs' := Records(v[b'], b', m);
    NoneBehind(cfg, v, p, shift, flags, items, j);
    FindTurns(cfg, v, shift, flags, items, p[j], pos, next, recs, m, k, id, n, b', recs');
    ChainListing(cfg, v, shift, p, flags, items, j + 1, 0, next, recs', m, 0, id, n - 1);
  }

  lemma {:induction false} ChainRecord(cfg: Config, v: seq<Sector>, shift: nat, p: seq<Stop>, flags: seq<bool>,
                                       items: seq<Part>, j: nat, i: nat, pos: nat, recs: seq<Seen>, m: nat, k: nat,
                                       id: nat, n: nat)
    requires Long(v) && Laid(cfg, v, p, shift, flags, items)
    requires j < |p| && i <= p[j].turn && i <= 4 && pos == 4 * j + i && Read(v, p[j].sector, recs, m)
    requires k == UsedBefore(v, p[j].sector, i) && Exhausts(v, recs, k, n) && id == Rank(flags, pos) % 0x1_0000
    requires i < p[j].turn
    ensures Finds(cfg, v, shift, flags, items, pos, recs, k, id, n)
    decreases |p| - j, 4 - i, 0
  {
    assert LaidAt(cfg, v, p, shift, flags, items, j);
    assert HereAt(cfg, v, p, shift, flags, items, j, i);
    var k', id', n' := FindRecord(cfg, v, shift, flags, items, p[j], i, pos, recs, m, k, id, n);
    ChainListing(cfg, v, shift, p, flags, items, j, i + 1, pos + 1, recs, m, k', id', n');
  }

  // Whole disks

  /** The first record that leads to another boot record. */
  lemma {:induction false} FindTurn(v: seq<Sector>, b: nat, i: nat) returns (t: nat)
    requires Long(v) && b < |v| && i <= 4 && forall k | 0 <= k < i :: !Leads(v, b, k)
    ensures StopsAt(v, Stop(b, t))
    decreases 4 - i
  {
    if i == 4 || Leads(v, b, i) {
      t := i;
    } else {
      t := FindTurn(v, b, i + 1);
    }
  }

  lemma LeadsDown(v: seq<Sector>, b: nat, i: nat, d: nat, m: nat)
    requires Long(v) && b < |v| && i < m == 4 && Leads(v, b, i) && Shallow(v, b, d)
    ensures d > 0 && Shallow(v, FirstOf(v, b, i), d - 1)
  {
    RecordRead(v, b, i, Records(v[b], b, m), m);
    assert Descends(v, Records(v[b], b, m)[UsedBefore(v, b, i)]);
  }

  lemma ChainCons(v: seq<Sector>, stop: Stop, p: seq<Stop>)
    requires Long(v) && StopsAt(v, stop) && Chain(v, p)
    requires if p == [] then stop.turn == 4 else stop.turn < 4 && p[0].sector == FirstOf(v, stop.sector, stop.turn)
    ensures Chain(v, [stop] + p)
  {
    var q := [stop] + p;
    forall j | 0 <= j < |q| ensures StopsAt(v, q[j]) {
    }
    forall j | 0 <= j < |q| ensures GoesOn(v, q, j) {
      if j > 0 {
        assert GoesOn(v, p, j - 1);
      }
    }
  }

  /** Where no way is too long there is a chain. */
  lemma {:induction false} ChainFrom(v: seq<Sector>, s: nat, d: nat) returns (p: seq<Stop>)
    requires Long(v) && s < |v| && Shallow(v, s, d)
    ensures Chain(v, p) && |p| > 0 && p[0].sector == s
    decreases d
  {
    var t := FindTurn(v, s, 0);
    p := [];
    if t < 4 {
      LeadsDown(v, s, t, d, 4);
      p := ChainFrom(v, FirstOf(v, s, t), d - 1);
    }
    ChainCons(v, Stop(s, t), p);
    p := [Stop(s, t)] + p;
  }

  /** What a partition has from its record, in 32-bit arithmetic, except that a volume has a size of its own. */
  ghost predicate TellsMbr(cfg: Config, v: seq<Sector>, b: nat, i: nat, number: nat, part: Part, shift: nat)
    requires Long(v) && b < |v| && i < 4 && FirstOf(v, b, i) < |v|
  {
    && part.offset == (FirstOf(v, b, i) * Pow2(shift)) % 0x1_0000_0000
    && NamedMbr(part.info.name, number) && part.info.sysind == TypeOf(v[b], i)
    && part.info.typeGuid == part.info.uniqueGuid == Zeros(16)
    && part.size == match Identify(cfg, v[FirstOf(v, b, i)])
                    case Some(volume) => volume.size
                    case None => (CountIn(v[b], i) * Pow2(shift)) % 0x1_0000_0000
  }

  lemma ItemTells(cfg: Config, v: seq<Sector>, b: nat, i: nat, number: nat, shift: nat)
    requires Long(v) && b < |v| && i < 4 && FirstOf(v, b, i) < |v|
    ensures TellsMbr(cfg, v, b, i, number, Item(cfg, v, b, i, number, shift), shift)
  {
    MbrNamed(number);
  }

  /** Record n of the chain, if it is listed, is in the place it has among those that are, and numbered by it. */
  ghost predicate FoundMbr(cfg: Config, v: seq<Sector>, p: seq<Stop>, n: nat, shift: nat, parts: seq<Part>)
    requires Long(v) && Within(v, p) && n < 4 * |p| && ShownAt(v, p, n)
  {
    var k := Rank(Flags(v, p), n);
    k < |parts| && TellsMbr(cfg, v, p[n / 4].sector, n % 4, (k + 1) % 0x1_0000, parts[k], shift)
  }

  ghost predicate ListsChain(cfg: Config, v: seq<Sector>, p: seq<Stop>, shift: nat, parts: seq<Part>)
    requires Long(v) && Within(v, p)
  {
    && |parts| == Rank(Flags(v, p), 4 * |p|)
    && forall n: nat | n < 4 * |p| && ShownAt(v, p, n) :: FoundMbr(cfg, v, p, n, shift, parts)
  }

  lemma PickedChain(cfg: Config, v: seq<Sector>, p: seq<Stop>, shift: nat, flags: seq<bool>, items: seq<Part>)
    requires Long(v) && Within(v, p) && flags == Flags(v, p) && items == Items(cfg, v, p, flags, shift)
    ensures ListsChain(cfg, v, p, shift, Pick(flags, items))
  {
    PickAll(flags, items);
    forall n: nat | n < 4 * |p| && ShownAt(v, p, n) ensures FoundMbr(cfg, v, p, n, shift, Pick(flags, items)) {
      PickAt(flags, items, n);
      ItemTells(cfg, v, p[n / 4].sector, n % 4, NumberAt(flags, n), shift);
    }
  }

  /** The first sector is no volume, is signed, and does not announce a GPT. */
  ghost predicate AnnouncesMbr(cfg: Config, s: Sector) {
    |s| >= 512 && Identify(cfg, s) == None && s[510] == 0x55 && s[511] == 0xAA && s[450] != 0xEE
  }

  lemma ChainWithin(v: seq<Sector>, p: seq<Stop>)
    requires Long(v) && Chain(v, p)
    ensures Within(v, p)
  {
    forall j | 0 <= j < |p| ensures p[j].sector < |v| {
      assert StopsAt(v, p[j]);
    }
  }

  lemma RecordsFound(cfg: Config, v: seq<Sector>, shift: nat, p: seq<Stop>, recs: seq<Seen>, m: nat, n: nat)
    requires Long(v) && Chain(v, p) && |p| > 0 && Within(v, p) && Read(v, p[0].sector, recs, m)
    requires Exhausts(v, recs, 0, n)
    ensures var l := MbrFrom(cfg, v, shift, recs, 0, 0, n); l.ok && ListsChain(cfg, v, p, shift, l.parts)
  {
    var flags := Flags(v, p);
    var items := Items(cfg, v, p, flags, shift);
    IsLaid(cfg, v, p, shift, flags);
    ChainListing(cfg, v, shift, p, flags, items, 0, 0, 0, recs, m, 0, 0, n);
    assert flags[0..] == flags && items[0..] == items;
    PickedChain(cfg, v, p, shift, flags, items);
  }

  /** A disk with an MBR lists all records in use, in order, that are not extended and can be read, up to the first
      extended one of each boot record that can, behind which it goes on with those of that partition. */
  lemma MbrScanned(cfg: Config, v: seq<Sector>, shift: nat) returns (p: seq<Stop>)
    requires Supported(shift) && Scannable(v, shift) && |v| > 0 && AnnouncesMbr(cfg, v[0])
    ensures Chain(v, p) && |p| > 0 && p[0].sector == 0 && Within(v, p)
    ensures Scan(cfg, v, shift).ok && ListsChain(cfg, v, p, shift, Scan(cfg, v, shift).parts)
  {
    BootBytes(v[0]);
    p := ChainFrom(v, 0, |v|);
    ChainWithin(v, p);
    RecordsFound(cfg, v, shift, p, Records(v[0], 0, 4), 4, Rounds(v, 0));
  }
}
