/**
 The header-ring commit protocol on top of the crash model. A transaction writes its data to blocks
 that the last committed generation does not use, and then one header, into the ring slot of its
 generation. Whatever point the device stops at, even in the middle of a write, a mount recovers the
 last generation that committed whole, or the one in flight, and every block of it is as it was written.
 */
module CommitRing {
  import opened Basics
  import opened BlockDisk
  import opened Crash

  /** What the engine makes of a header block. How it does (signature, version, hash, tree walk) is not modelled. */
  datatype Format = Format(valid: Block -> bool, generation: Block -> nat, reach: Block -> set<nat>) {
    function Slot(h: Block): nat { generation(h) % HEADER_RING }
  }

  /** The blocks the scan of a mount looks for a first header in. */
  const SCAN: nat := 65536

  /** The ring holds nothing newer than `h`, `h` only once, and every valid header in its own slot. */
  ghost predicate RingHolds(f: Format, disk: Disk, h: Block) {
    && HEADER_RING <= |disk|
    && f.valid(h) && disk[f.Slot(h)] == h
    && forall b :: 0 <= b < HEADER_RING && f.valid(disk[b]) ==>
         && f.Slot(disk[b]) == b
         && f.generation(disk[b]) <= f.generation(h)
         && (f.generation(disk[b]) == f.generation(h) ==> b == f.Slot(h))
  }

  // --- the mount ---

  /** The header that takes over from `best` in a scan of `n` blocks from `base`: newer than `best`, none newer, the first such. */
  predicate TakesOver(f: Format, disk: Disk, base: nat, n: nat, best: Block, c: nat)
    requires base + n <= |disk|
  {
    && base <= c < base + n && f.valid(disk[c]) && f.generation(best) < f.generation(disk[c])
    && forall d :: base <= d < base + n && f.valid(disk[d]) ==>
         f.generation(disk[d]) <= f.generation(disk[c]) && (d < c ==> f.generation(disk[d]) < f.generation(disk[c]))
  }

  /** What a scan of `n` blocks from `base` ends with, entered with `best`: the first of the newest, `best` before all others. */
  ghost predicate Newest(f: Format, disk: Disk, base: nat, n: nat, best: Block, h: Block)
    requires base + n <= |disk|
  {
    || (h == best && forall d :: base <= d < base + n && f.valid(disk[d]) ==> f.generation(disk[d]) <= f.generation(best))
    || exists c: nat :: TakesOver(f, disk, base, n, best, c) && h == disk[c]
  }

  /** The first valid header a mount meets. */
  predicate FirstValid(f: Format, disk: Disk, b: nat) {
    b < |disk| && b < SCAN && f.valid(disk[b]) && forall c :: 0 <= c < b ==> !f.valid(disk[c])
  }

  /** The ring a header belongs to starts its slot number before it; a ring that would not fit the disk cannot be read. */
  ghost predicate MountsFrom(f: Format, disk: Disk, b: nat, r: Result<(nat, Block)>)
    requires b < |disk|
  {
    var slot := f.Slot(disk[b]);
    if slot > b || b - slot + HEADER_RING > |disk| then r == Err(EIO)
    else r.Ok? && r.value.0 == b - slot && Newest(f, disk, b - slot, HEADER_RING, disk[b], r.value.1)
  }

  /** What mounting `disk` answers: the start of the ring it takes, and the header it trusts. */
  ghost predicate Mounts(f: Format, disk: Disk, r: Result<(nat, Block)>) {
    if exists b: nat :: FirstValid(f, disk, b) then forall b: nat :: FirstValid(f, disk, b) ==> MountsFrom(f, disk, b, r)
    else r == Err(if |disk| < SCAN then EIO else ENOENT)
  }

  /** The disk mounts with its ring in place and `h` as its header. */
  ghost predicate MountsAs(f: Format, disk: Disk, h: Block) {
    Mounts(f, disk, Ok((0, h)))
  }

  lemma {:induction false} FirstIs(f: Format, disk: Disk, b: nat, r: Result<(nat, Block)>)
    requires FirstValid(f, disk, b)
    ensures Mounts(f, disk, r) <==> MountsFrom(f, disk, b, r)
  {
    forall c: nat | FirstValid(f, disk, c) ensures c == b {
    }
  }

  lemma {:induction false} NewestOnce(f: Format, disk: Disk, base: nat, n: nat, best: Block, h: Block, g: Block)
    requires base + n <= |disk| && Newest(f, disk, base, n, best, h) && Newest(f, disk, base, n, best, g)
    ensures h == g
  {
    forall c: nat, d: nat | TakesOver(f, disk, base, n, best, c) && TakesOver(f, disk, base, n, best, d) ensures c == d {
      assert f.generation(disk[c]) == f.generation(disk[d]);
    }
  }

  /** A disk mounts in one way only. */
  lemma {:induction false} MountsOnce(f: Format, disk: Disk, r: Result<(nat, Block)>, q: Result<(nat, Block)>)
    requires Mounts(f, disk, r) && Mounts(f, disk, q)
    ensures r == q
  {
    if b: nat :| FirstValid(f, disk, b) {
      var slot := f.Slot(disk[b]);
      if slot <= b && b - slot + HEADER_RING <= |disk| {
        NewestOnce(f, disk, b - slot, HEADER_RING, disk[b], r.value.1, q.value.1);
      }
    }
  }

  lemma {:induction false} FirstExists(f: Format, disk: Disk, n: nat) returns (b: nat)
    requires n < |disk| && n < SCAN && f.valid(disk[n])
    ensures b <= n && FirstValid(f, disk, b)
  {
    if c :| 0 <= c < n && f.valid(disk[c]) {
      b := FirstExists(f, disk, c);
    } else {
      b := n;
    }
  }

  /** In a ring that holds `h`, wherever the mount enters it, `h` is what it ends with. */
  lemma {:induction false} RingMounts(f: Format, disk: Disk, h: Block)
    requires RingHolds(f, disk, h)
    ensures MountsAs(f, disk, h)
  {
    var b := FirstExists(f, disk, f.Slot(h));
    assert f.Slot(disk[b]) == b;
    assert b == f.Slot(h) || TakesOver(f, disk, 0, HEADER_RING, disk[b], f.Slot(h));
    FirstIs(f, disk, b, Ok((0, h)));
  }

  /** The scan of one ring, entered with the header `best`. */
  method ScanRing(f: Format, disk: Disk, base: nat, best: Block) returns (r: Result<Block>)
    requires base <= |disk|
    ensures if base + HEADER_RING > |disk| then r == Err(EIO)
            else r.Ok? && Newest(f, disk, base, HEADER_RING, best, r.value)
  {
    var header := best;
    var i := 0;
    while i < HEADER_RING
      invariant i <= HEADER_RING && base + i <= |disk| && Newest(f, disk, base, i, best, header)
    {
      if base + i >= |disk| {
        return Err(EIO);
      }
      var other := disk[base + i];
      ghost var was := header;
      if f.valid(other) && f.generation(other) > f.generation(header) {
        header := other;
      }
      ScanStep(f, disk, base, i, best, was);
      i := i + 1;
    }
    return Ok(header);
  }

  lemma {:induction false} ScanStep(f: Format, disk: Disk, base: nat, n: nat, best: Block, h: Block)
    requires base + n < |disk| && Newest(f, disk, base, n, best, h)
    ensures var other := disk[base + n];
            Newest(f, disk, base, n + 1, best, if f.valid(other) && f.generation(other) > f.generation(h) then other else h)
  {
    var other := disk[base + n];
    assert forall d :: base <= d < base + n && f.valid(disk[d]) ==> f.generation(disk[d]) <= f.generation(h);
    if f.valid(other) && f.generation(other) > f.generation(h) {
      assert TakesOver(f, disk, base, n + 1, best, base + n);
    } else {
      StillNewest(f, disk, base, n, best, h);
    }
  }

  lemma {:induction false} StillNewest(f: Format, disk: Disk, base: nat, n: nat, best: Block, h: Block)
    requires base + n < |disk| && Newest(f, disk, base, n, best, h)
    requires f.valid(disk[base + n]) ==> f.generation(disk[base + n]) <= f.generation(h)
    ensures Newest(f, disk, base, n + 1, best, h)
  {
    if c: nat :| TakesOver(f, disk, base, n, best, c) && h == disk[c] {
      assert TakesOver(f, disk, base, n + 1, best, c);
    }
  }

  /** The mount: find a first header, then scan its ring for the newest. A block past the end of the disk is `EIO`. */
  method Open(f: Format, disk: Disk) returns (r: Result<(nat, Block)>)
    ensures Mounts(f, disk, r)
  {
    var ringBlock := 0;
    while ringBlock < SCAN
      invariant ringBlock <= SCAN && ringBlock <= |disk|
      invariant forall b :: 0 <= b < ringBlock ==> !f.valid(disk[b])
    {
      if ringBlock >= |disk| {
        return Err(EIO);
      }
      var header := disk[ringBlock];
      if f.valid(header) {
        var slot := f.generation(header) % HEADER_RING;
        assert FirstValid(f, disk, ringBlock);
        if ringBlock < slot {
          r := Err(EIO);
        } else {
          var found := ScanRing(f, disk, ringBlock - slot, header);
          r := if found.Ok? then Ok((ringBlock - slot, found.value)) else Err(EIO);
        }
        FirstIs(f, disk, ringBlock, r);
        return;
      }
      ringBlock := ringBlock + 1;
    }
    return Err(ENOENT);
  }

  // --- transactions ---

  /** Data first, header last. */
  datatype Tx = Tx(data: seq<Write>, header: Block) {
    function Writes(f: Format): seq<Write> { data + [Write(f.Slot(header), header)] }
  }

  function LogOf(f: Format, txs: seq<Tx>): seq<Write> {
    if txs == [] then [] else txs[0].Writes(f) + LogOf(f, txs[1..])
  }

  /** A generation refers to blocks outside the ring. */
  ghost predicate ReachOk(f: Format, size: nat, h: Block) {
    forall b :: b in f.reach(h) ==> HEADER_RING <= b < size
  }

  /**
   Copy on write: the data goes to blocks outside the ring that the committed generation `h` does not
   use, the header is the next generation's, and it refers to what `h` did and to what was just written.
   */
  ghost predicate TxOk(f: Format, size: nat, h: Block, tx: Tx) {
    && AllFit(tx.data, size)
    && (forall i :: 0 <= i < |tx.data| ==> HEADER_RING <= tx.data[i].block && tx.data[i].block !in f.reach(h))
    && f.valid(tx.header)
    && f.generation(tx.header) == f.generation(h) + 1
    && ReachOk(f, size, tx.header)
    && forall b :: b in f.reach(tx.header) ==> b in f.reach(h) || exists i :: 0 <= i < |tx.data| && tx.data[i].block == b
  }

  ghost predicate RunOk(f: Format, size: nat, h: Block, txs: seq<Tx>)
    decreases txs
  {
    txs == [] || (TxOk(f, size, h, txs[0]) && RunOk(f, size, txs[0].header, txs[1..]))
  }

  /** The header that stands after the first `p` transactions. */
  function HeaderAfter(h: Block, txs: seq<Tx>, p: nat): Block
    requires p <= |txs|
  {
    if p == 0 then h else txs[p - 1].header
  }

  /** How many transactions have their header among the first `k` writes. */
  function Commits(txs: seq<Tx>, k: nat): (p: nat)
    ensures p <= |txs|
    decreases txs
  {
    if txs == [] || k < |txs[0].data| + 1 then 0 else 1 + Commits(txs[1..], k - |txs[0].data| - 1)
  }

  /** A valid header stands in the ring before block `slot`. */
  predicate EnteredBefore(f: Format, disk: Disk, slot: nat)
    requires slot <= |disk|
  {
    exists b :: 0 <= b < slot && f.valid(disk[b])
  }

  /**
   What half a header may be without harm, in the slot of `next` over a ring that holds `h`: not valid, which is
   what the hash is for; all of `next`; or valid and passed over. It is passed over when the mount enters the ring
   before it and it is older than `h`, or as old and met after `h`; and when the mount enters the ring by it, if it
   is an older header of this very slot, such as the one that was there.
   */
  predicate Harmless(f: Format, disk: Disk, torn: Block, h: Block, next: Block)
    requires HEADER_RING <= |disk|
  {
    || !f.valid(torn)
    || torn == next
    || (if EnteredBefore(f, disk, f.Slot(next))
        then f.generation(torn) < f.generation(h)
             || (f.generation(torn) == f.generation(h) && (f.Slot(h) < f.Slot(next) || torn == h))
        else f.Slot(torn) == f.Slot(next) && f.generation(torn) < f.generation(h))
  }

  /** Every block of generation `h` is as it is in `whole`. */
  ghost predicate Intact(f: Format, disk: Disk, whole: Disk, h: Block) {
    && |disk| == |whole|
    && ReachOk(f, |disk|, h)
    && forall b :: b in f.reach(h) ==> disk[b] == whole[b]
  }

  /** A consistent disk. */
  ghost predicate Mounted(f: Format, disk: Disk, h: Block) {
    RingHolds(f, disk, h) && ReachOk(f, |disk|, h)
  }

  // --- one write ---

  /** A data write of a transaction in flight disturbs neither the ring nor the committed generation, whatever the device did with it. */
  lemma {:induction false} DataWritesKeep(f: Format, disk: Disk, h: Block, log: seq<Write>, damage: Damage, n: nat)
    requires Mounted(f, disk, h) && AllFit(log, |disk|) && HasBytes(damage) && n <= |log|
    requires forall i :: 0 <= i < n ==> HEADER_RING <= log[i].block && log[i].block !in f.reach(h)
    ensures RingHolds(f, Platter(disk, log, damage, n), h) && Intact(f, Platter(disk, log, damage, n), disk, h)
  {
    if n > 0 {
      DataWritesKeep(f, disk, h, log, damage, n - 1);
    }
  }

  /** The header write, whole: the next generation is now the newest. */
  lemma {:induction false} HeaderLands(f: Format, disk: Disk, h: Block, next: Block)
    requires RingHolds(f, disk, h) && f.valid(next) && f.generation(next) == f.generation(h) + 1
    ensures RingHolds(f, Applied(disk, Write(f.Slot(next), next), BLOCK), next)
  {
  }

  /** A valid block in the slot of `next` that is not `next`, when the mount enters the ring before it. */
  lemma {:induction false} TornBehind(f: Format, disk: Disk, h: Block, slot: nat, torn: Block)
    requires RingHolds(f, disk, h) && slot < HEADER_RING && slot != f.Slot(h) && f.valid(torn) && EnteredBefore(f, disk, slot)
    ensures MountsAs(f, disk[slot := torn],
                     if f.generation(torn) < f.generation(h) || (f.generation(torn) == f.generation(h) && f.Slot(h) < slot) then h else torn)
  {
    var disk' := disk[slot := torn];
    var v :| 0 <= v < slot && f.valid(disk[v]);
    var b := FirstExists(f, disk', v);
    assert disk'[b] == disk[b] && f.Slot(disk[b]) == b && disk'[slot] == torn;
    var c := if f.generation(torn) < f.generation(h) || (f.generation(torn) == f.generation(h) && f.Slot(h) < slot) then f.Slot(h) else slot;
    assert b == c || TakesOver(f, disk', 0, HEADER_RING, disk'[b], c);
    FirstIs(f, disk', b, Ok((0, disk'[c])));
  }

  /** The same when the mount enters the ring by it. */
  lemma {:induction false} TornInFront(f: Format, disk: Disk, h: Block, slot: nat, torn: Block, disk': Disk)
    requires RingHolds(f, disk, h) && slot < HEADER_RING && slot != f.Slot(h) && f.valid(torn) && !EnteredBefore(f, disk, slot)
    requires disk' == disk[slot := torn]
    ensures f.Slot(torn) == slot ==> MountsAs(f, disk', if f.generation(torn) < f.generation(h) then h else torn)
    ensures f.Slot(torn) != slot ==> forall g: Block :: !MountsAs(f, disk', g)
  {
    assert FirstValid(f, disk', slot) && disk'[slot] == torn;
    forall g: Block ensures MountsAs(f, disk', g) <==> MountsFrom(f, disk', slot, Ok((0, g))) {
      FirstIs(f, disk', slot, Ok((0, g)));
    }
    if f.Slot(torn) == slot && f.generation(torn) < f.generation(h) {
      assert TakesOver(f, disk', 0, HEADER_RING, torn, f.Slot(h));
    }
  }

  /** The header write, torn: the disk mounts as the old generation or the new one if and only if the torn block is harmless. */
  lemma {:induction false} HeaderTears(f: Format, disk: Disk, h: Block, next: Block, n: nat)
    requires RingHolds(f, disk, h) && f.valid(next) && f.generation(next) == f.generation(h) + 1 && n <= BLOCK
    ensures var torn := Applied(disk, Write(f.Slot(next), next), n);
            MountsAs(f, torn, h) || MountsAs(f, torn, next) <==> Harmless(f, disk, Tear(disk[f.Slot(next)], next, n), h, next)
    ensures var torn := Applied(disk, Write(f.Slot(next), next), n);
            MountsAs(f, torn, next) ==> torn == Applied(disk, Write(f.Slot(next), next), BLOCK)
  {
    var slot, block := f.Slot(next), Tear(disk[f.Slot(next)], next, n);
    var disk' := disk[slot := block];
    assert Applied(disk, Write(slot, next), n) == disk' && slot != f.Slot(h);
    if block == next {
      HeaderLands(f, disk, h, next);
      RingMounts(f, disk', next);
    } else if !f.valid(block) {
      assert RingHolds(f, disk', h);
      RingMounts(f, disk', h);
    } else if EnteredBefore(f, disk, slot) {
      TornBehind(f, disk, h, slot, block);
    } else {
      TornInFront(f, disk, h, slot, block, disk');
    }
    forall g, g' | MountsAs(f, disk', g) && MountsAs(f, disk', g') ensures g == g' {
      MountsOnce(f, disk', Ok((0, g)), Ok((0, g')));
    }
  }

  // --- the whole log ---

  lemma {:induction false} LogFits(f: Format, size: nat, h: Block, txs: seq<Tx>)
    requires RunOk(f, size, h, txs) && HEADER_RING <= size
    ensures AllFit(LogOf(f, txs), size)
    decreases txs
  {
    if txs != [] {
      LogFits(f, size, txs[0].header, txs[1..]);
    }
  }

  /** `disk` mounts as the generation after `p` transactions, every block of it as those transactions left it. */
  ghost predicate Recovers(f: Format, disk: Disk, start: Disk, h: Block, txs: seq<Tx>, p: nat) {
    && p <= |txs| && AllFit(LogOf(f, txs[..p]), |start|)
    && MountsAs(f, disk, HeaderAfter(h, txs, p))
    && Intact(f, disk, Replay(start, LogOf(f, txs[..p])), HeaderAfter(h, txs, p))
  }

  /** `disk` mounts as some number of transactions between `lo` and `hi`. */
  ghost predicate RecoversWithin(f: Format, disk: Disk, start: Disk, h: Block, txs: seq<Tx>, lo: nat, hi: nat) {
    exists p :: lo <= p <= hi && Recovers(f, disk, start, h, txs, p)
  }

  /** One whole transaction takes one consistent disk to the next. */
  lemma {:induction false} TxLands(f: Format, disk: Disk, h: Block, tx: Tx)
    requires Mounted(f, disk, h) && TxOk(f, |disk|, h, tx)
    ensures AllFit(tx.Writes(f), |disk|) && Mounted(f, Replay(disk, tx.Writes(f)), tx.header)
  {
    DataWritesKeep(f, disk, h, tx.data, Cut(|tx.data|), |tx.data|);
    HeaderLands(f, Replay(disk, tx.data), h, tx.header);
    ReplaySnoc(disk, tx.data, Write(f.Slot(tx.header), tx.header));
  }

  /** Past the first transaction, the run continues on the disk it left. */
  lemma {:induction false} NextTx(f: Format, disk: Disk, h: Block, txs: seq<Tx>)
    requires Mounted(f, disk, h) && RunOk(f, |disk|, h, txs) && txs != []
    ensures var first, later := txs[0].Writes(f), LogOf(f, txs[1..]);
            && |first| == |txs[0].data| + 1 && LogOf(f, txs) == first + later
            && AllFit(first, |disk|) && AllFit(later, |disk|) && AllFit(LogOf(f, txs), |disk|)
            && Mounted(f, Replay(disk, first), txs[0].header)
  {
    LogFits(f, |disk|, h, txs);
    LogFits(f, |disk|, txs[0].header, txs[1..]);
    TxLands(f, disk, h, txs[0]);
  }

  /** A cut beyond the first transaction is a cut in the rest of the run. */
  lemma {:induction false} CutLater(f: Format, disk: Disk, h: Block, txs: seq<Tx>, damage: Damage, n: nat)
    requires Mounted(f, disk, h) && RunOk(f, |disk|, h, txs) && txs != [] && AllFit(LogOf(f, txs), |disk|)
    requires (damage.Cut? || damage.TornCut?) && HasBytes(damage) && n == |txs[0].data| + 1
    requires damage.landed >= n + (if damage.Cut? then 0 else 1)
    ensures AllFit(txs[0].Writes(f), |disk|) && AllFit(LogOf(f, txs[1..]), |disk|)
    ensures Damaged(disk, LogOf(f, txs), damage) ==
            Damaged(Replay(disk, txs[0].Writes(f)), LogOf(f, txs[1..]), damage.(landed := damage.landed - n))
  {
    NextTx(f, disk, h, txs);
    DamagedConcat(disk, LogOf(f, txs), damage, txs[0].Writes(f), LogOf(f, txs[1..]), damage.(landed := damage.landed - n));
  }

  lemma {:induction false} LogPrefix(f: Format, txs: seq<Tx>, p: nat)
    requires p < |txs|
    ensures LogOf(f, txs[..p + 1]) == txs[0].Writes(f) + LogOf(f, txs[1..][..p])
  {
    assert txs[..p + 1][1..] == txs[1..][..p];
  }

  /** A recovery of the rest of a run is a recovery of the run, one transaction later. */
  lemma {:induction false} RecoversLater(f: Format, disk: Disk, start: Disk, h: Block, txs: seq<Tx>, p: nat)
    requires p < |txs| && AllFit(txs[0].Writes(f), |start|)
    ensures Recovers(f, disk, Replay(start, txs[0].Writes(f)), txs[0].header, txs[1..], p) <==> Recovers(f, disk, start, h, txs, p + 1)
  {
    LogPrefix(f, txs, p);
    var first, later := txs[0].Writes(f), LogOf(f, txs[1..][..p]);
    FitConcat(first, later, |start|);
    if AllFit(later, |start|) {
      ReplayConcat(start, LogOf(f, txs[..p + 1]), first, later);
    }
  }

  lemma {:induction false} FitConcat(first: seq<Write>, later: seq<Write>, size: nat)
    requires AllFit(first, size)
    ensures AllFit(first + later, size) <==> AllFit(later, size)
  {
    if AllFit(first + later, size) {
      forall i | 0 <= i < |later| ensures later[i].block < size {
        assert (first + later)[|first| + i] == later[i];
      }
    }
  }

  /** A run cut down before its first commit. */
  lemma {:induction false} DataOnly(f: Format, disk: Disk, h: Block, txs: seq<Tx>, damage: Damage, n: nat)
    requires Mounted(f, disk, h) && RunOk(f, |disk|, h, txs) && AllFit(LogOf(f, txs), |disk|) && HasBytes(damage)
    requires n <= |LogOf(f, txs)| && (txs == [] || n <= |txs[0].data|)
    ensures Recovers(f, Platter(disk, LogOf(f, txs), damage, n), disk, h, txs, 0)
    ensures RingHolds(f, Platter(disk, LogOf(f, txs), damage, n), h) && Intact(f, Platter(disk, LogOf(f, txs), damage, n), disk, h)
  {
    assert txs[..0] == [];
    if txs != [] {
      forall i | 0 <= i < n ensures LogOf(f, txs)[i] == txs[0].data[i] {
      }
      DataWritesKeep(f, disk, h, LogOf(f, txs), damage, n);
    }
    RingMounts(f, Platter(disk, LogOf(f, txs), damage, n), h);
  }

  /** The write caught in flight, if it is a commit, left a harmless block in its slot. */
  ghost predicate TearShows(f: Format, disk: Disk, h: Block, txs: seq<Tx>, k: nat, bytes: nat)
    requires HEADER_RING <= |disk| && AllFit(LogOf(f, txs), |disk|) && 0 < k <= |LogOf(f, txs)| && bytes <= BLOCK
  {
    ShowsIn(f, Damaged(disk, LogOf(f, txs), Cut(k - 1)), HeaderAfter(h, txs, Commits(txs, k - 1)), LogOf(f, txs)[k - 1], bytes)
  }

  predicate ShowsIn(f: Format, before: Disk, h: Block, w: Write, bytes: nat)
    requires HEADER_RING <= |before| && w.block < |before| && bytes <= BLOCK
  {
    IsCommit(w) ==> Harmless(f, before, Tear(before[w.block], w.data, bytes), h, w.data)
  }

  /** The write in flight is the first commit: it counts, or it does not, exactly when what is left of it is harmless. */
  lemma {:induction false} FirstCommit(f: Format, disk: Disk, h: Block, txs: seq<Tx>, bytes: nat)
    requires Mounted(f, disk, h) && RunOk(f, |disk|, h, txs) && txs != [] && bytes <= BLOCK
    requires AllFit(LogOf(f, txs), |disk|) && |txs[0].data| < |LogOf(f, txs)|
    ensures var k := |txs[0].data| + 1;
            var before := Platter(disk, LogOf(f, txs), TornCut(k, bytes), k - 1);
            RecoversWithin(f, Platter(disk, LogOf(f, txs), TornCut(k, bytes), k), disk, h, txs, 0, 1) <==>
            Harmless(f, before, Tear(before[f.Slot(txs[0].header)], txs[0].header, bytes), h, txs[0].header)
  {
    var tx, log, n := txs[0], LogOf(f, txs), |txs[0].data|;
    var damage := TornCut(n + 1, bytes);
    var before, w := Platter(disk, log, damage, n), Write(f.Slot(tx.header), tx.header);
    DataOnly(f, disk, h, txs, damage, n);
    assert log[n] == w;
    HeaderTears(f, before, h, tx.header, bytes);
    SamePlatter(disk, log, damage, tx.data, Cut(n), n);
    FirstOutcome(f, disk, h, txs, before, bytes);
  }

  /** The blocks of either generation are whole whatever happened to the header. */
  lemma {:induction false} FirstOutcome(f: Format, disk: Disk, h: Block, txs: seq<Tx>, before: Disk, bytes: nat)
    requires Mounted(f, disk, h) && RunOk(f, |disk|, h, txs) && txs != [] && bytes <= BLOCK && AllFit(txs[0].data, |disk|)
    requires before == Replay(disk, txs[0].data) && RingHolds(f, before, h) && Intact(f, before, disk, h)
    ensures var torn := Applied(before, Write(f.Slot(txs[0].header), txs[0].header), bytes);
            && (Recovers(f, torn, disk, h, txs, 0) <==> MountsAs(f, torn, h))
            && (Recovers(f, torn, disk, h, txs, 1) <==> MountsAs(f, torn, txs[0].header))
  {
    var tx := txs[0];
    var w := Write(f.Slot(tx.header), tx.header);
    assert txs[..0] == [] && txs[..1] == [tx] && [tx][1..] == [];
    assert LogOf(f, [tx]) == tx.Writes(f);
    ReplaySnoc(disk, tx.data, w);
    HeaderTears(f, before, h, tx.header, bytes);
  }

  lemma {:induction false} TornInFirst(f: Format, disk: Disk, h: Block, txs: seq<Tx>, k: nat, bytes: nat)
    requires Mounted(f, disk, h) && RunOk(f, |disk|, h, txs) && txs != []
    requires AllFit(LogOf(f, txs), |disk|) && 0 < k <= |LogOf(f, txs)| && bytes <= BLOCK && k <= |txs[0].data| + 1
    ensures RecoversWithin(f, Damaged(disk, LogOf(f, txs), TornCut(k, bytes)), disk, h, txs, Commits(txs, k - 1), Commits(txs, k)) <==>
            TearShows(f, disk, h, txs, k, bytes)
  {
    var log := LogOf(f, txs);
    NothingAfter(disk, log, TornCut(k, bytes), |log|);
    if k <= |txs[0].data| {
      DataOnly(f, disk, h, txs, TornCut(k, bytes), k);
      assert log[k - 1] == txs[0].data[k - 1];
    } else {
      assert log[k - 1] == Write(f.Slot(txs[0].header), txs[0].header);
      FirstCommit(f, disk, h, txs, bytes);
      NothingAfter(disk, log, Cut(k - 1), |log|);
      SamePlatter(disk, log, TornCut(k, bytes), log, Cut(k - 1), k - 1);
    }
  }

  /** The law of `CrashAtomic`, for one run and one write. */
  ghost predicate AtomicAt(f: Format, disk: Disk, h: Block, txs: seq<Tx>, k: nat, bytes: nat)
    requires HEADER_RING <= |disk| && RunOk(f, |disk|, h, txs)
    requires AllFit(LogOf(f, txs), |disk|) && 0 < k <= |LogOf(f, txs)| && bytes <= BLOCK
  {
    RecoversWithin(f, Damaged(disk, LogOf(f, txs), TornCut(k, bytes)), disk, h, txs, Commits(txs, k - 1), Commits(txs, k)) <==>
    TearShows(f, disk, h, txs, k, bytes)
  }

  lemma {:induction false} AtomicRun(f: Format, disk: Disk, h: Block, txs: seq<Tx>, k: nat, bytes: nat)
    requires Mounted(f, disk, h) && RunOk(f, |disk|, h, txs)
    requires AllFit(LogOf(f, txs), |disk|) && 0 < k <= |LogOf(f, txs)| && bytes <= BLOCK
    ensures AtomicAt(f, disk, h, txs, k, bytes)
    decreases txs
  {
    var n := |txs[0].data| + 1;
    if k <= n {
      TornInFirst(f, disk, h, txs, k, bytes);
    } else {
      NextTx(f, disk, h, txs);
      LogLength(f, txs);
      AtomicRun(f, Replay(disk, txs[0].Writes(f)), txs[0].header, txs[1..], k - n, bytes);
      AtomicLater(f, disk, h, txs, k, bytes, n);
    }
  }

  lemma {:induction false} AtomicLater(f: Format, disk: Disk, h: Block, txs: seq<Tx>, k: nat, bytes: nat, n: nat)
    requires Mounted(f, disk, h) && RunOk(f, |disk|, h, txs) && txs != [] && AllFit(LogOf(f, txs), |disk|)
    requires AllFit(txs[0].Writes(f), |disk|) && AllFit(LogOf(f, txs[1..]), |disk|)
    requires n == |txs[0].data| + 1 && n < k <= |LogOf(f, txs)| && bytes <= BLOCK && k - n <= |LogOf(f, txs[1..])|
    ensures AtomicAt(f, disk, h, txs, k, bytes) == AtomicAt(f, Replay(disk, txs[0].Writes(f)), txs[0].header, txs[1..], k - n, bytes)
  {
    TornLater(f, disk, h, txs, k, bytes, n);
    CutLater(f, disk, h, txs, Cut(k - 1), n);
    TearsLater(f, disk, h, txs, k, bytes, n);
  }

  /**
   Crash atomicity: a power cut that catches write `k` in flight, however much of it landed, leaves a
   disk that mounts, its ring in place, as the last generation whose header landed before, or as the one whose header write
   `k` is. Every block of that generation is as its transactions left it: never a mixture. Data writes
   need nothing for that; of a header write it is so if and only if the torn header is harmless.
   */
  lemma {:induction false} CrashAtomic(f: Format, disk: Disk, h: Block, txs: seq<Tx>, k: nat, bytes: nat)
    requires Mounted(f, disk, h) && RunOk(f, |disk|, h, txs)
    requires AllFit(LogOf(f, txs), |disk|) && 0 < k <= |LogOf(f, txs)| && bytes <= BLOCK
    ensures RecoversWithin(f, Damaged(disk, LogOf(f, txs), TornCut(k, bytes)), disk, h, txs, Commits(txs, k - 1), Commits(txs, k)) <==>
            TearShows(f, disk, h, txs, k, bytes)
  {
    AtomicRun(f, disk, h, txs, k, bytes);
  }

  /** A run recovers exactly if the rest of it does. */
  lemma {:induction false} TornLater(f: Format, disk: Disk, h: Block, txs: seq<Tx>, k: nat, bytes: nat, n: nat)
    requires Mounted(f, disk, h) && RunOk(f, |disk|, h, txs) && txs != [] && AllFit(LogOf(f, txs), |disk|)
    requires AllFit(txs[0].Writes(f), |disk|) && AllFit(LogOf(f, txs[1..]), |disk|)
    requires n == |txs[0].data| + 1 && n < k <= |LogOf(f, txs)| && bytes <= BLOCK
    ensures RecoversWithin(f, Damaged(disk, LogOf(f, txs), TornCut(k, bytes)), disk, h, txs, Commits(txs, k - 1), Commits(txs, k)) <==>
            RecoversWithin(f, Damaged(Replay(disk, txs[0].Writes(f)), LogOf(f, txs[1..]), TornCut(k - n, bytes)),
                           Replay(disk, txs[0].Writes(f)), txs[0].header, txs[1..], Commits(txs[1..], k - n - 1), Commits(txs[1..], k - n))
  {
    CutLater(f, disk, h, txs, TornCut(k, bytes), n);
    LaterCommit(f, Damaged(disk, LogOf(f, txs), TornCut(k, bytes)), disk, h, txs, k - n);
  }

  /** And its torn header is harmless exactly if it is harmless in the rest. */
  lemma {:induction false} TearsLater(f: Format, disk: Disk, h: Block, txs: seq<Tx>, k: nat, bytes: nat, n: nat)
    requires HEADER_RING <= |disk| && txs != []
    requires AllFit(LogOf(f, txs), |disk|) && AllFit(txs[0].Writes(f), |disk|) && AllFit(LogOf(f, txs[1..]), |disk|)
    requires n == |txs[0].data| + 1 && n < k <= |LogOf(f, txs)| && bytes <= BLOCK && k - n <= |LogOf(f, txs[1..])|
    requires Damaged(disk, LogOf(f, txs), Cut(k - 1)) == Damaged(Replay(disk, txs[0].Writes(f)), LogOf(f, txs[1..]), Cut(k - 1 - n))
    ensures TearShows(f, disk, h, txs, k, bytes) <==>
            TearShows(f, Replay(disk, txs[0].Writes(f)), txs[0].header, txs[1..], k - n, bytes)
  {
    WriteLater(f, txs, k, n);
    HeaderLater(h, txs, Commits(txs[1..], k - n - 1));
  }

  lemma {:induction false} WriteLater(f: Format, txs: seq<Tx>, k: nat, n: nat)
    requires txs != [] && n == |txs[0].data| + 1 && n < k <= |LogOf(f, txs)|
    ensures k - n <= |LogOf(f, txs[1..])| && LogOf(f, txs)[k - 1] == LogOf(f, txs[1..])[k - n - 1]
    ensures Commits(txs, k - 1) == Commits(txs[1..], k - n - 1) + 1
  {
  }

  lemma {:induction false} HeaderLater(h: Block, txs: seq<Tx>, p: nat)
    requires p < |txs|
    ensures HeaderAfter(h, txs, p + 1) == HeaderAfter(txs[0].header, txs[1..], p)
  {
  }

  lemma {:induction false} LogLength(f: Format, txs: seq<Tx>)
    requires txs != []
    ensures |LogOf(f, txs)| == |txs[0].data| + 1 + |LogOf(f, txs[1..])|
  {
  }

  lemma {:induction false} LaterCommit(f: Format, torn: Disk, disk: Disk, h: Block, txs: seq<Tx>, k: nat)
    requires txs != [] && AllFit(txs[0].Writes(f), |disk|) && k > 0
    ensures var n := |txs[0].data| + 1 + k;
            RecoversWithin(f, torn, disk, h, txs, Commits(txs, n - 1), Commits(txs, n)) <==>
            RecoversWithin(f, torn, Replay(disk, txs[0].Writes(f)), txs[0].header, txs[1..], Commits(txs[1..], k - 1), Commits(txs[1..], k))
  {
    forall p: nat | p < |txs|
      ensures Recovers(f, torn, Replay(disk, txs[0].Writes(f)), txs[0].header, txs[1..], p) <==> Recovers(f, torn, disk, h, txs, p + 1)
    {
      RecoversLater(f, torn, disk, h, txs, p);
    }
    var n := |txs[0].data| + 1 + k;
    assert Commits(txs, n - 1) == 1 + Commits(txs[1..], k - 1) && Commits(txs, n) == 1 + Commits(txs[1..], k);
    if RecoversWithin(f, torn, disk, h, txs, Commits(txs, n - 1), Commits(txs, n)) {
      var p :| Commits(txs, n - 1) <= p <= Commits(txs, n) && Recovers(f, torn, disk, h, txs, p);
      assert Recovers(f, torn, Replay(disk, txs[0].Writes(f)), txs[0].header, txs[1..], p - 1);
    }
  }

  /** A clean cut after `k` writes recovers exactly the generations whose headers landed. */
  lemma {:induction false} CutRecovers(f: Format, disk: Disk, h: Block, txs: seq<Tx>, k: nat)
    requires Mounted(f, disk, h) && RunOk(f, |disk|, h, txs)
    requires AllFit(LogOf(f, txs), |disk|) && k <= |LogOf(f, txs)|
    ensures Recovers(f, Damaged(disk, LogOf(f, txs), Cut(k)), disk, h, txs, Commits(txs, k))
    decreases txs
  {
    if txs == [] || k < |txs[0].data| + 1 {
      NothingAfter(disk, LogOf(f, txs), Cut(k), |LogOf(f, txs)|);
      DataOnly(f, disk, h, txs, Cut(k), k);
    } else {
      var n := |txs[0].data| + 1;
      NextTx(f, disk, h, txs);
      LogLength(f, txs);
      CutRecovers(f, Replay(disk, txs[0].Writes(f)), txs[0].header, txs[1..], k - n);
      CutLater(f, disk, h, txs, Cut(k), n);
      CutRest(f, Damaged(disk, LogOf(f, txs), Cut(k)), disk, h, txs, k, n);
    }
  }

  lemma {:induction false} CutRest(f: Format, cut: Disk, disk: Disk, h: Block, txs: seq<Tx>, k: nat, n: nat)
    requires txs != [] && AllFit(txs[0].Writes(f), |disk|) && n == |txs[0].data| + 1 <= k
    requires Recovers(f, cut, Replay(disk, txs[0].Writes(f)), txs[0].header, txs[1..], Commits(txs[1..], k - n))
    ensures Recovers(f, cut, disk, h, txs, Commits(txs, k))
  {
    RecoversLater(f, cut, disk, h, txs, Commits(txs[1..], k - n));
  }

  /** A later cut never loses more, and with every write landed nothing is lost. */
  lemma {:induction false} CommitsMonotone(f: Format, txs: seq<Tx>, j: nat, k: nat)
    requires j <= k
    ensures Commits(txs, j) <= Commits(txs, k)
    ensures Commits(txs, |LogOf(f, txs)|) == |txs|
    decreases txs
  {
    if txs != [] {
      var n := |txs[0].data| + 1;
      CommitsMonotone(f, txs[1..], if j < n then 0 else j - n, if k < n then 0 else k - n);
    }
  }

  /** Generations count the commits. */
  lemma {:induction false} GenerationAfter(f: Format, size: nat, h: Block, txs: seq<Tx>, p: nat)
    requires RunOk(f, size, h, txs) && p <= |txs|
    ensures f.generation(HeaderAfter(h, txs, p)) == f.generation(h) + p
    decreases txs
  {
    if p > 0 {
      GenerationAfter(f, size, txs[0].header, txs[1..], p - 1);
      assert p > 1 ==> txs[1..][p - 2] == txs[p - 1];
    }
  }

  // --- the negative control ---

  /**
   With the ring's history blanked, what the kept slot holds decides: the disk mounts as it if it is a valid
   header in its own slot, and if it is not valid, and no block behind the ring passes for a header, there is
   nothing to mount.
   */
  method MountWithoutHistory(f: Format, image: array<Block>, keep: nat) returns (r: Result<(nat, Block)>)
    requires HEADER_RING <= image.Length && keep < HEADER_RING && !f.valid(ZEROS)
    modifies image
    ensures r == Ok((0, old(image[keep]))) <==> f.valid(old(image[keep])) && f.Slot(old(image[keep])) == keep
    ensures !f.valid(old(image[keep])) && (forall b :: HEADER_RING <= b < SCAN && b < image.Length ==> !f.valid(old(image[b]))) ==> r.Err?
  {
    ghost var kept := image[keep];
    OnlyThisGeneration(image, keep);
    r := Open(f, image[..]);
    if f.valid(kept) {
      FirstIs(f, image[..], keep, r);
      assert f.Slot(kept) == keep ==> RingHolds(f, image[..], kept);
    }
  }

  // --- a hash that sees tears ---

  /** Half of `next` over `was` is valid only if it is all of the one or all of the other. */
  ghost predicate TearSeen(f: Format, was: Block, next: Block) {
    forall n: nat :: n <= BLOCK && f.valid(Tear(was, next, n)) ==> Tear(was, next, n) == next || Tear(was, next, n) == was
  }

  /** That is so of every header of the run over every block that stands in the ring or has been committed before. */
  ghost predicate SeesTears(f: Format, disk: Disk, txs: seq<Tx>)
    requires HEADER_RING <= |disk|
  {
    && (forall i, b :: 0 <= i < |txs| && 0 <= b < HEADER_RING ==> TearSeen(f, disk[b], txs[i].header))
    && (forall i, j :: 0 <= j < i < |txs| ==> TearSeen(f, txs[j].header, txs[i].header))
  }

  lemma {:induction false} SeenIsHarmless(f: Format, disk: Disk, h: Block, next: Block, n: nat)
    requires RingHolds(f, disk, h) && f.generation(next) == f.generation(h) + 1 && n <= BLOCK && TearSeen(f, disk[f.Slot(next)], next)
    ensures Harmless(f, disk, Tear(disk[f.Slot(next)], next, n), h, next)
  {
    assert f.Slot(next) != f.Slot(h);
  }

  /** The rest of the run sees its tears too: the ring has changed by one header of the run. */
  lemma {:induction false} SeesLater(f: Format, disk: Disk, h: Block, txs: seq<Tx>)
    requires Mounted(f, disk, h) && RunOk(f, |disk|, h, txs) && txs != [] && SeesTears(f, disk, txs)
    ensures AllFit(txs[0].Writes(f), |disk|) && SeesTears(f, Replay(disk, txs[0].Writes(f)), txs[1..])
  {
    var tx := txs[0];
    ReplaySnoc(disk, tx.data, Write(f.Slot(tx.header), tx.header));
    RingUntouched(disk, tx.data, |tx.data|);
    var after := Replay(disk, tx.Writes(f));
    forall i, b | 0 <= i < |txs[1..]| && 0 <= b < HEADER_RING ensures TearSeen(f, after[b], txs[1..][i].header) {
      assert txs[1..][i] == txs[i + 1];
      assert after[b] == disk[b] || after[b] == tx.header;
    }
  }

  lemma {:induction false} RingUntouched(disk: Disk, log: seq<Write>, n: nat)
    requires AllFit(log, |disk|) && n <= |log| && HEADER_RING <= |disk| && forall i :: 0 <= i < |log| ==> HEADER_RING <= log[i].block
    ensures forall b :: 0 <= b < HEADER_RING ==> Platter(disk, log, Cut(|log|), n)[b] == disk[b]
  {
    if n > 0 {
      RingUntouched(disk, log, n - 1);
    }
  }

  /** The same, transaction by transaction: over what stands in its slot when it is committed. */
  ghost predicate RunSees(f: Format, disk: Disk, txs: seq<Tx>)
    decreases txs
  {
    txs == [] ||
    (&& HEADER_RING <= |disk| && AllFit(txs[0].Writes(f), |disk|)
     && TearSeen(f, disk[f.Slot(txs[0].header)], txs[0].header)
     && RunSees(f, Replay(disk, txs[0].Writes(f)), txs[1..]))
  }

  lemma {:induction false} SeesRun(f: Format, disk: Disk, h: Block, txs: seq<Tx>)
    requires Mounted(f, disk, h) && RunOk(f, |disk|, h, txs) && SeesTears(f, disk, txs)
    ensures RunSees(f, disk, txs)
    decreases txs
  {
    if txs != [] {
      SeesLater(f, disk, h, txs);
      TxLands(f, disk, h, txs[0]);
      SeesRun(f, Replay(disk, txs[0].Writes(f)), txs[0].header, txs[1..]);
    }
  }

  /** Then whatever write is caught, what is left of it is harmless. */
  lemma {:induction false} SeenShows(f: Format, disk: Disk, h: Block, txs: seq<Tx>, k: nat, bytes: nat)
    requires Mounted(f, disk, h) && RunOk(f, |disk|, h, txs) && RunSees(f, disk, txs)
    requires AllFit(LogOf(f, txs), |disk|) && 0 < k <= |LogOf(f, txs)| && bytes <= BLOCK
    ensures TearShows(f, disk, h, txs, k, bytes)
    decreases txs
  {
    var n := |txs[0].data| + 1;
    if k <= n {
      FirstTearShows(f, disk, h, txs, k, bytes);
    } else {
      NextTx(f, disk, h, txs);
      LogLength(f, txs);
      SeenShows(f, Replay(disk, txs[0].Writes(f)), txs[0].header, txs[1..], k - n, bytes);
      CutLater(f, disk, h, txs, Cut(k - 1), n);
      TearsLater(f, disk, h, txs, k, bytes, n);
    }
  }

  lemma {:induction false} FirstTearShows(f: Format, disk: Disk, h: Block, txs: seq<Tx>, k: nat, bytes: nat)
    requires Mounted(f, disk, h) && RunOk(f, |disk|, h, txs) && txs != [] && TearSeen(f, disk[f.Slot(txs[0].header)], txs[0].header)
    requires AllFit(LogOf(f, txs), |disk|) && 0 < k <= |LogOf(f, txs)| && bytes <= BLOCK && k <= |txs[0].data| + 1
    ensures TearShows(f, disk, h, txs, k, bytes)
  {
    var log, tx := LogOf(f, txs), txs[0];
    if k <= |tx.data| {
      assert log[k - 1] == tx.data[k - 1];
    } else {
      assert log[k - 1] == Write(f.Slot(tx.header), tx.header);
      BeforeFirst(f, disk, h, txs, k);
      SeenIsHarmless(f, Damaged(disk, log, Cut(k - 1)), h, tx.header, bytes);
    }
  }

  /** Just before the first commit the ring is as it was. */
  lemma {:induction false} BeforeFirst(f: Format, disk: Disk, h: Block, txs: seq<Tx>, k: nat)
    requires Mounted(f, disk, h) && RunOk(f, |disk|, h, txs) && txs != [] && AllFit(LogOf(f, txs), |disk|)
    requires k == |txs[0].data| + 1 <= |LogOf(f, txs)|
    ensures RingHolds(f, Damaged(disk, LogOf(f, txs), Cut(k - 1)), h)
    ensures forall b :: 0 <= b < HEADER_RING ==> Damaged(disk, LogOf(f, txs), Cut(k - 1))[b] == disk[b]
  {
    var log, data := LogOf(f, txs), txs[0].data;
    NothingAfter(disk, log, Cut(k - 1), |log|);
    DataOnly(f, disk, h, txs, Cut(k - 1), k - 1);
    SamePlatter(disk, log, Cut(k - 1), data, Cut(k - 1), k - 1);
    RingUntouched(disk, data, k - 1);
  }

  /**
   With a hash that sees the tears of a run, every power cut is survived: whatever write it catches, at whatever
   byte, the disk mounts as the last generation committed or as the one in flight, whole.
   */
  lemma {:induction false} TearsRecover(f: Format, disk: Disk, h: Block, txs: seq<Tx>, k: nat, bytes: nat)
    requires Mounted(f, disk, h) && RunOk(f, |disk|, h, txs) && SeesTears(f, disk, txs)
    requires AllFit(LogOf(f, txs), |disk|) && 0 < k <= |LogOf(f, txs)| && bytes <= BLOCK
    ensures RecoversWithin(f, Damaged(disk, LogOf(f, txs), TornCut(k, bytes)), disk, h, txs, Commits(txs, k - 1), Commits(txs, k))
  {
    SeesRun(f, disk, h, txs);
    SeenShows(f, disk, h, txs, k, bytes);
    CrashAtomic(f, disk, h, txs, k, bytes);
  }

  // --- two formats, with and without a check over the whole header ---

  /** A header is its generation repeated; the checked format looks at every byte, the other at the first one only. */
  function Repeating(checked: bool): Format {
    Format((b: Block) => b[0] != 0 && (checked ==> IsFilled(b, b[0])), (b: Block) => b[0], (b: Block) => {})
  }

  predicate IsFilled(b: Block, g: byte) {
    forall i :: 0 <= i < BLOCK ==> b[i] == g
  }

  lemma {:induction false} FilledTears(was: Block, g: byte, next: Block, g': byte)
    requires IsFilled(was, g) && IsFilled(next, g')
    ensures TearSeen(Repeating(true), was, next)
  {
    forall n: nat | n <= BLOCK && Repeating(true).valid(Tear(was, next, n))
      ensures Tear(was, next, n) == next || Tear(was, next, n) == was
    {
      var torn := Tear(was, next, n);
      if 0 < n < BLOCK {
        assert torn[0] == g' && torn[BLOCK - 1] == g;
      }
    }
  }

  /** With the check, every tear of every run over a ring of such headers and blanks is survived. */
  lemma {:induction false} CheckedSurvives(disk: Disk, h: Block, txs: seq<Tx>, k: nat, bytes: nat)
    requires Mounted(Repeating(true), disk, h) && RunOk(Repeating(true), |disk|, h, txs)
    requires forall b :: 0 <= b < HEADER_RING ==> IsFilled(disk[b], disk[b][0])
    requires AllFit(LogOf(Repeating(true), txs), |disk|) && 0 < k <= |LogOf(Repeating(true), txs)| && bytes <= BLOCK
    ensures RecoversWithin(Repeating(true), Damaged(disk, LogOf(Repeating(true), txs), TornCut(k, bytes)), disk, h, txs, Commits(txs, k - 1), Commits(txs, k))
  {
    var f := Repeating(true);
    forall i | 0 <= i < |txs| ensures IsFilled(txs[i].header, txs[i].header[0]) {
      HeadersValid(f, |disk|, h, txs, i);
    }
    forall i, b | 0 <= i < |txs| && 0 <= b < HEADER_RING ensures TearSeen(f, disk[b], txs[i].header) {
      FilledTears(disk[b], disk[b][0], txs[i].header, txs[i].header[0]);
    }
    forall i, j | 0 <= j < i < |txs| ensures TearSeen(f, txs[j].header, txs[i].header) {
      FilledTears(txs[j].header, txs[j].header[0], txs[i].header, txs[i].header[0]);
    }
    TearsRecover(f, disk, h, txs, k, bytes);
  }

  lemma {:induction false} HeadersValid(f: Format, size: nat, h: Block, txs: seq<Tx>, i: nat)
    requires RunOk(f, size, h, txs) && i < |txs|
    ensures f.valid(txs[i].header)
    decreases txs
  {
    if i > 0 {
      HeadersValid(f, size, txs[0].header, txs[1..], i - 1);
    }
  }

  /** Generation 1 in its slot of an otherwise blank ring, and the header of generation 2. */
  predicate IsToy(disk: Disk, h: Block, next: Block) {
    && |disk| == HEADER_RING && disk[1] == h && IsFilled(h, 1) && IsFilled(next, 2)
    && forall i :: 0 <= i < HEADER_RING && i != 1 ==> IsFilled(disk[i], 0)
  }

  lemma {:induction false} ToyDisk() returns (disk: Disk, h: Block, next: Block)
    ensures IsToy(disk, h, next)
  {
    h, next := seq(BLOCK, _ => 1), seq(BLOCK, _ => 2);
    var blank: Block := seq(BLOCK, _ => 0);
    disk := [blank, h];
    while |disk| < HEADER_RING
      invariant 2 <= |disk| <= HEADER_RING && disk[1] == h
      invariant forall i :: 0 <= i < |disk| && i != 1 ==> disk[i] == blank
    {
      disk := disk + [blank];
    }
  }

  lemma {:induction false} ToyMounts(checked: bool, disk: Disk, h: Block, next: Block)
    requires IsToy(disk, h, next)
    ensures var f := Repeating(checked);
            Mounted(f, disk, h) && RunOk(f, |disk|, h, [Tx([], next)]) && LogOf(f, [Tx([], next)]) == [Write(2, next)]
  {
    var f := Repeating(checked);
    assert [Tx([], next)][1..] == [];
    assert LogOf(f, []) == [];
    assert f.Slot(next) == 2 && f.Slot(h) == 1;
  }

  /** Without the check, a commit torn after its first byte leaves neither generation: half a header is mounted. */
  lemma {:induction false} UncheckedFails(disk: Disk, h: Block, next: Block)
    requires IsToy(disk, h, next)
    ensures AllFit(LogOf(Repeating(false), [Tx([], next)]), |disk|)
    ensures !RecoversWithin(Repeating(false), Damaged(disk, LogOf(Repeating(false), [Tx([], next)]), TornCut(1, 1)), disk, h, [Tx([], next)], 0, 1)
  {
    var f, txs := Repeating(false), [Tx([], next)];
    ToyMounts(false, disk, h, next);
    CrashAtomic(f, disk, h, txs, 1, 1);
    NothingAfter(disk, LogOf(f, txs), Cut(0), 1);
    var torn := Tear(disk[2], next, 1);
    assert IsFilled(disk[2], 0);
    assert torn[0] == 2 && torn[1] == 0 && next[1] == 2;
  }
}
