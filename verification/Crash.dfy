/**
 What a failing device leaves on the platter, rebuilt from the disk before and the log of writes: the
 recorder, the four kinds of damage, and the laws that relate them. A disk is its sequence of blocks.
 */
module Crash {
  import opened BlockDisk

  type Disk = seq<Block>

  /** Blocks `0..HEADER_RING` are the header ring. */
  const HEADER_RING: nat := 256

  /** One block write: which block, and the bytes offered for it. */
  datatype Write = Write(block: nat, data: Block)

  /** A write into the ring is a commit. */
  predicate IsCommit(w: Write) { w.block < HEADER_RING }

  datatype Damage =
    | Cut(landed: nat)
    | TornCut(landed: nat, bytes: nat)
    | Dropped(index: nat)
    | Torn(index: nat, bytes: nat)

  predicate AllFit(log: seq<Write>, size: nat) {
    forall i :: 0 <= i < |log| ==> log[i].block < size
  }

  /** The damage names writes of the log, numbered from 1, and no more bytes than a block has. */
  predicate Sensible(damage: Damage, log: seq<Write>) {
    && HasBytes(damage)
    && (damage.Cut? ==> damage.landed <= |log|)
    && (damage.TornCut? ==> 0 < damage.landed <= |log|)
  }

  predicate HasBytes(damage: Damage) {
    (damage.TornCut? || damage.Torn?) ==> damage.bytes <= BLOCK
  }

  /** New bytes in front, old bytes behind. */
  function Tear(was: Block, data: Block, n: nat): (r: Block)
    requires n <= BLOCK
    ensures n == 0 ==> r == was
    ensures n == BLOCK ==> r == data
  {
    data[..n] + was[n..]
  }

  /** How many bytes of write number `i` reached the platter. */
  function Landing(damage: Damage, i: nat): (n: nat)
    ensures HasBytes(damage) ==> n <= BLOCK
  {
    match damage
    case Cut(landed) => if i <= landed then BLOCK else 0
    case TornCut(landed, bytes) => if i < landed then BLOCK else if i == landed then bytes else 0
    case Dropped(index) => if i == index then 0 else BLOCK
    case Torn(index, bytes) => if i == index then bytes else BLOCK
  }

  /** The first `n` bytes of `w` reach the platter. */
  function Applied(disk: Disk, w: Write, n: nat): (r: Disk)
    requires w.block < |disk| && n <= BLOCK
    ensures |r| == |disk|
  {
    disk[w.block := Tear(disk[w.block], w.data, n)]
  }

  /** The platter once the device is done with the first `n` writes. */
  function Platter(pristine: Disk, log: seq<Write>, damage: Damage, n: nat): (r: Disk)
    requires AllFit(log, |pristine|) && HasBytes(damage) && n <= |log|
    ensures |r| == |pristine|
  {
    if n == 0 then pristine
    else Applied(Platter(pristine, log, damage, n - 1), log[n - 1], Landing(damage, n))
  }

  /** What a failing device leaves, stated by what reached the platter. */
  function Damaged(pristine: Disk, log: seq<Write>, damage: Damage): (r: Disk)
    requires AllFit(log, |pristine|) && HasBytes(damage)
    ensures |r| == |pristine|
  {
    Platter(pristine, log, damage, |log|)
  }

  /** What a device that does not fail leaves. */
  function Replay(pristine: Disk, log: seq<Write>): (r: Disk)
    requires AllFit(log, |pristine|)
    ensures |r| == |pristine|
  {
    Platter(pristine, log, Cut(|log|), |log|)
  }

  // --- the image, byte by byte ---

  lemma {:induction false} TearBytes(was: Block, data: Block, n: nat)
    requires n <= BLOCK
    ensures forall j :: 0 <= j < BLOCK ==> Tear(was, data, n)[j] == if j < n then data[j] else was[j]
  {
    assert |data[..n]| == n;
  }

  /** Byte `j` of write number `i` reached the platter. */
  predicate Reached(damage: Damage, i: nat, j: nat) {
    match damage
    case Cut(landed) => i <= landed
    case TornCut(landed, bytes) => i < landed || (i == landed && j < bytes)
    case Dropped(index) => i != index
    case Torn(index, bytes) => i != index || j < bytes
  }

  /** Write number `i` put byte `j` of block `b` on the platter. */
  predicate Covers(log: seq<Write>, damage: Damage, b: nat, j: nat, i: nat) {
    0 < i <= |log| && log[i - 1].block == b && Reached(damage, i, j)
  }

  /** Of the first `n` writes, the last to do so is number `i`; none of them, when `i` is 0. */
  predicate LastToCover(log: seq<Write>, damage: Damage, b: nat, j: nat, i: nat, n: nat) {
    && (i > 0 ==> i <= n && Covers(log, damage, b, j, i))
    && forall k :: i < k <= n ==> !Covers(log, damage, b, j, k)
  }

  /** The byte the last such write offered, or the byte that was there before. */
  ghost predicate LeftBy(pristine: Disk, log: seq<Write>, damage: Damage, b: nat, j: nat, left: int)
    requires b < |pristine| && j < BLOCK
  {
    exists i: nat :: LastToCover(log, damage, b, j, i, |log|) && left == if i == 0 then pristine[b][j] else log[i - 1].data[j]
  }

  lemma {:induction false} PlatterByte(pristine: Disk, log: seq<Write>, damage: Damage, b: nat, j: nat, n: nat) returns (i: nat)
    requires AllFit(log, |pristine|) && HasBytes(damage) && b < |pristine| && j < BLOCK && n <= |log|
    ensures LastToCover(log, damage, b, j, i, n)
    ensures Platter(pristine, log, damage, n)[b][j] == if i == 0 then pristine[b][j] else log[i - 1].data[j]
  {
    i := 0;
    if n > 0 {
      i := PlatterByte(pristine, log, damage, b, j, n - 1);
      if Covers(log, damage, b, j, n) {
        i := n;
      }
    }
  }

  /** Every byte a failing device leaves is the one the last write to reach it offered. */
  lemma {:induction false} DamagedBytes(pristine: Disk, log: seq<Write>, damage: Damage)
    requires AllFit(log, |pristine|) && HasBytes(damage)
    ensures forall b: nat, j: nat :: b < |pristine| && j < BLOCK ==> LeftBy(pristine, log, damage, b, j, Damaged(pristine, log, damage)[b][j])
  {
    forall b: nat, j: nat | b < |pristine| && j < BLOCK ensures LeftBy(pristine, log, damage, b, j, Damaged(pristine, log, damage)[b][j]) {
      var i := PlatterByte(pristine, log, damage, b, j, |log|);
    }
  }

  // --- the damage algebra ---

  lemma {:induction false} AppliedNone(disk: Disk, w: Write)
    requires w.block < |disk|
    ensures Applied(disk, w, 0) == disk
  {
  }

  /** What lands is all that matters. */
  lemma {:induction false} SamePlatter(disk: Disk, log: seq<Write>, damage: Damage, log': seq<Write>, damage': Damage, n: nat)
    requires AllFit(log, |disk|) && AllFit(log', |disk|) && HasBytes(damage) && HasBytes(damage')
    requires n <= |log| && n <= |log'|
    requires forall i :: 0 <= i < n ==> log[i] == log'[i]
    requires forall i :: 0 < i <= n ==> Landing(damage, i) == Landing(damage', i)
    ensures Platter(disk, log, damage, n) == Platter(disk, log', damage', n)
  {
    if n > 0 {
      SamePlatter(disk, log, damage, log', damage', n - 1);
    }
  }

  /** After a power cut nothing lands. */
  lemma {:induction false} NothingAfter(disk: Disk, log: seq<Write>, damage: Damage, n: nat)
    requires AllFit(log, |disk|) && HasBytes(damage) && (damage.Cut? || damage.TornCut?)
    requires damage.landed <= n <= |log|
    ensures Platter(disk, log, damage, n) == Platter(disk, log, damage, damage.landed)
  {
    if n > damage.landed {
      NothingAfter(disk, log, damage, n - 1);
      AppliedNone(Platter(disk, log, damage, n - 1), log[n - 1]);
    }
  }

  /** A log in two parts: the second lands on what the first left. */
  lemma {:induction false} PlatterConcat(disk: Disk, log: seq<Write>, damage: Damage, first: seq<Write>, later: seq<Write>, damage': Damage, n: nat)
    requires AllFit(log, |disk|) && AllFit(first, |disk|) && AllFit(later, |disk|) && log == first + later
    requires HasBytes(damage) && HasBytes(damage') && n <= |later|
    requires forall i :: 0 < i <= |first| ==> Landing(damage, i) == BLOCK
    requires forall i :: 0 < i <= |later| ==> Landing(damage', i) == Landing(damage, |first| + i)
    ensures Platter(disk, log, damage, |first| + n) == Platter(Replay(disk, first), later, damage', n)
  {
    if n == 0 {
      SamePlatter(disk, log, damage, first, Cut(|first|), |first|);
    } else {
      PlatterConcat(disk, log, damage, first, later, damage', n - 1);
      assert log[|first| + n - 1] == later[n - 1];
      assert Landing(damage', n) == Landing(damage, |first| + n);
    }
  }

  /** Damage to the second part of a log is that damage on what the first part left. */
  lemma {:induction false} DamagedConcat(disk: Disk, log: seq<Write>, damage: Damage, first: seq<Write>, later: seq<Write>, damage': Damage)
    requires AllFit(log, |disk|) && AllFit(first, |disk|) && AllFit(later, |disk|) && log == first + later
    requires HasBytes(damage) && HasBytes(damage')
    requires forall i :: 0 < i <= |first| ==> Landing(damage, i) == BLOCK
    requires forall i :: 0 < i <= |later| ==> Landing(damage', i) == Landing(damage, |first| + i)
    ensures Damaged(disk, log, damage) == Damaged(Replay(disk, first), later, damage')
  {
    PlatterConcat(disk, log, damage, first, later, damage', |later|);
  }

  lemma {:induction false} ReplayConcat(disk: Disk, log: seq<Write>, first: seq<Write>, later: seq<Write>)
    requires AllFit(log, |disk|) && AllFit(first, |disk|) && AllFit(later, |disk|) && log == first + later
    ensures Replay(disk, log) == Replay(Replay(disk, first), later)
  {
    PlatterConcat(disk, log, Cut(|log|), first, later, Cut(|later|), |later|);
  }

  /** One more write that lands whole. */
  lemma {:induction false} ReplaySnoc(disk: Disk, log: seq<Write>, w: Write)
    requires AllFit(log, |disk|) && w.block < |disk|
    ensures AllFit(log + [w], |disk|) && Replay(disk, log + [w]) == Applied(Replay(disk, log), w, BLOCK)
  {
    SamePlatter(disk, log, Cut(|log|), log + [w], Cut(|log| + 1), |log|);
  }

  /** A torn last write with all its bytes is a cut after it; with none, a cut before it. */
  lemma {:induction false} TornCutIsCut(pristine: Disk, log: seq<Write>, k: nat)
    requires AllFit(log, |pristine|) && 0 < k
    ensures Damaged(pristine, log, TornCut(k, BLOCK)) == Damaged(pristine, log, Cut(k))
    ensures Damaged(pristine, log, TornCut(k, 0)) == Damaged(pristine, log, Cut(k - 1))
  {
    SamePlatter(pristine, log, TornCut(k, BLOCK), log, Cut(k), |log|);
    SamePlatter(pristine, log, TornCut(k, 0), log, Cut(k - 1), |log|);
  }

  /** A dropped write is a torn one of which nothing persisted; one of which all persisted is no damage. */
  lemma {:induction false} DroppedIsTorn(pristine: Disk, log: seq<Write>, i: nat)
    requires AllFit(log, |pristine|)
    ensures Damaged(pristine, log, Dropped(i)) == Damaged(pristine, log, Torn(i, 0))
    ensures Damaged(pristine, log, Torn(i, BLOCK)) == Damaged(pristine, log, Cut(|log|)) == Replay(pristine, log)
  {
    SamePlatter(pristine, log, Dropped(i), log, Torn(i, 0), |log|);
    SamePlatter(pristine, log, Torn(i, BLOCK), log, Cut(|log|), |log|);
  }

  /** Block `k` is not disturbed by the fate of a write to another block, nor of one that a later whole write covers. */
  lemma {:induction false} TornIsLocal(pristine: Disk, log: seq<Write>, i: nat, bytes: nat, k: nat, n: nat)
    requires AllFit(log, |pristine|) && 0 < i <= |log| && bytes <= BLOCK && n <= |log| && k < |pristine|
    ensures k != log[i - 1].block || n < i || (exists j :: i <= j < n && log[j].block == k) ==>
              Platter(pristine, log, Torn(i, bytes), n)[k] == Platter(pristine, log, Cut(|log|), n)[k]
  {
    if n > 0 {
      TornIsLocal(pristine, log, i, bytes, k, n - 1);
      if log[n - 1].block != k && exists j :: i <= j < n && log[j].block == k {
        var j :| i <= j < n && log[j].block == k;
        assert j < n - 1;
      }
    }
  }

  /** A dropped or torn write changes only its own block, and nothing at all if a later write covers that block. */
  lemma {:induction false} TornChangesItsBlock(pristine: Disk, log: seq<Write>, i: nat, bytes: nat, k: nat)
    requires AllFit(log, |pristine|) && 0 < i <= |log| && bytes <= BLOCK && k < |pristine|
    requires k != log[i - 1].block || exists j :: i <= j < |log| && log[j].block == k
    ensures Damaged(pristine, log, Torn(i, bytes))[k] == Replay(pristine, log)[k]
    ensures Damaged(pristine, log, Dropped(i))[k] == Replay(pristine, log)[k]
  {
    DroppedIsTorn(pristine, log, i);
    TornIsLocal(pristine, log, i, bytes, k, |log|);
    TornIsLocal(pristine, log, i, 0, k, |log|);
  }

  // --- the recorder ---

  /** A block device over a disk that records every write in order. */
  class Recording {
    ghost const pristine: Disk
    var image: array<Block>
    var log: seq<Write>

    /** The image is always what the log makes of the pristine disk. */
    ghost predicate Valid()
      reads this, image
    {
      && image.Length == |pristine|
      && AllFit(log, |pristine|)
      && image[..] == Damaged(pristine, log, Cut(|log|))
    }

    constructor (disk: Disk)
      ensures Valid() && pristine == disk && log == [] && fresh(image)
    {
      pristine := disk;
      image := new Block[|disk|](i requires 0 <= i < |disk| => disk[i]);
      log := [];
      new;
      assert image[..] == disk;
    }

    method ReadBlock(block: nat) returns (data: Block)
      requires Valid() && block < image.Length
      ensures data == Replay(pristine, log)[block]
    {
      return image[block];
    }

    method WriteBlock(block: nat, data: Block)
      requires Valid() && block < image.Length
      modifies this`log, image
      ensures Valid() && log == old(log) + [Write(block, data)]
    {
      ghost var was := image[..];
      image[block] := data;
      log := log + [Write(block, data)];
      assert image[..] == Applied(was, Write(block, data), BLOCK);
      ReplaySnoc(pristine, old(log), Write(block, data));
    }
  }

  // --- rebuilding the image ---

  method ApplyTo(image: array<Block>, w: Write, n: nat)
    requires w.block < image.Length && n <= BLOCK
    modifies image
    ensures image[..] == Applied(old(image[..]), w, n)
    ensures forall j :: 0 <= j < BLOCK ==> image[w.block][j] == if j < n then w.data[j] else old(image[w.block])[j]
    ensures forall b :: 0 <= b < image.Length && b != w.block ==> image[b] == old(image[b])
  {
    image[w.block] := w.data[..n] + image[w.block][n..];
  }

  /** Apply the first `n` writes of a log whole. */
  method ApplyFirst(image: array<Block>, log: seq<Write>, n: nat, ghost damage: Damage)
    requires AllFit(log, image.Length) && HasBytes(damage) && n <= |log|
    requires forall i :: 0 < i <= n ==> Landing(damage, i) == BLOCK
    modifies image
    ensures image[..] == Platter(old(image[..]), log, damage, n)
  {
    ghost var was := image[..];
    var i := 0;
    while i < n
      invariant i <= n && image[..] == Platter(was, log, damage, i)
    {
      ApplyTo(image, log[i], BLOCK);
      i := i + 1;
    }
  }

  method DamagedImage(pristine: Disk, log: seq<Write>, damage: Damage) returns (image: array<Block>)
    requires AllFit(log, |pristine|) && Sensible(damage, log)
    ensures fresh(image) && image[..] == Damaged(pristine, log, damage)
    ensures forall b: nat, j: nat :: b < |pristine| && j < BLOCK ==> LeftBy(pristine, log, damage, b, j, image[..][b][j])
  {
    DamagedBytes(pristine, log, damage);
    image := new Block[|pristine|](i requires 0 <= i < |pristine| => pristine[i]);
    assert image[..] == pristine;
    match damage
    case Cut(landed) =>
      ApplyFirst(image, log, landed, damage);
      NothingAfter(pristine, log, damage, |log|);
    case TornCut(landed, bytes) =>
      ApplyFirst(image, log, landed - 1, damage);
      ApplyTo(image, log[landed - 1], bytes);
      NothingAfter(pristine, log, damage, |log|);
    case Dropped(index) =>
      var i := 0;
      while i < |log|
        invariant i <= |log| && image[..] == Platter(pristine, log, damage, i)
      {
        if i + 1 != index {
          ApplyTo(image, log[i], BLOCK);
        } else {
          AppliedNone(image[..], log[i]);
        }
        i := i + 1;
      }
    case Torn(index, bytes) =>
      var i := 0;
      while i < |log|
        invariant i <= |log| && image[..] == Platter(pristine, log, damage, i)
      {
        ApplyTo(image, log[i], if i + 1 == index then bytes else BLOCK);
        i := i + 1;
      }
  }

  const ZEROS: Block := seq(BLOCK, _ => 0)

  /** Blank every ring slot but `keep`. */
  method OnlyThisGeneration(image: array<Block>, keep: nat)
    requires HEADER_RING <= image.Length
    modifies image
    ensures forall b :: 0 <= b < image.Length ==>
              image[b] == if b < HEADER_RING && b != keep then ZEROS else old(image[b])
  {
    var slot := 0;
    while slot < HEADER_RING
      invariant slot <= HEADER_RING
      invariant forall b :: 0 <= b < image.Length ==> image[b] == if b < slot && b != keep then ZEROS else old(image[b])
    {
      if slot != keep {
        image[slot] := ZEROS;
      }
      slot := slot + 1;
    }
  }
}
