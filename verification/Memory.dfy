/**
 How physical memory is bootstrapped: where the frame bitmap goes, and which frames the allocator can
 hand out once RAM has been freed and everything spoken for has been taken back.
 */
module Memory {
  import opened Basics

  const FRAME: nat := 4096

  /** Addresses are 64 bits wide. */
  const LIMIT: nat := 0x1_0000_0000_0000_0000

  /** The most regions of each kind the device tree reader fills in. */
  const MAX_REGIONS: nat := 16

  datatype Region = Region(start: nat, size: nat) {
    function End(): nat { start + size }
  }

  /** The device tree reader refuses a region that wraps. */
  predicate Sane(r: Region) { r.start + r.size < LIMIT }

  predicate AllSane(rs: seq<Region>) {
    forall i :: 0 <= i < |rs| ==> Sane(rs[i])
  }

  function AlignUp(v: nat): (r: nat)
    ensures r % FRAME == 0 && v <= r < v + FRAME
    ensures forall a: nat {:trigger a % FRAME} :: a % FRAME == 0 && a >= v ==> a >= r
  {
    (v + FRAME - 1) / FRAME * FRAME
  }

  function Saturated(a: nat): nat { if a < LIMIT then a else LIMIT - 1 }

  /** Do the two runs share a byte? Sums saturate at the top of the address space. */
  predicate Overlaps(a: nat, alen: nat, b: nat, blen: nat) {
    a < Saturated(b + blen) && b < Saturated(a + alen)
  }

  predicate Covers(start: nat, len: nat, x: nat) { start <= x < start + len }

  /** They do, whenever neither is empty and neither reaches the top. */
  lemma {:induction false} OverlapsIff(a: nat, alen: nat, b: nat, blen: nat)
    requires alen > 0 && blen > 0 && a + alen < LIMIT && b + blen < LIMIT
    ensures Overlaps(a, alen, b, blen) <==> exists x :: Covers(a, alen, x) && Covers(b, blen, x)
  {
    if Overlaps(a, alen, b, blen) {
      var x := if a < b then b else a;
      assert Covers(a, alen, x) && Covers(b, blen, x);
    }
    if exists x :: Covers(a, alen, x) && Covers(b, blen, x) {
      var x: nat :| Covers(a, alen, x) && Covers(b, blen, x);
    }
  }

  // --- where the bitmap goes ---

  /** `need` bytes at `a` are aligned, inside `region`, and clear of everything spoken for. */
  predicate Fits(a: nat, need: nat, region: Region, forbidden: seq<Region>) {
    && a % FRAME == 0
    && region.start <= a && a + need <= region.End()
    && forall i :: 0 <= i < |forbidden| ==> !Overlaps(a, need, forbidden[i].start, forbidden[i].size)
  }

  /** Where the scan ends: a place, none, or an address past the top on the way. */
  datatype Placement = Placed(at: nat) | NoRoom | Overflow

  /** Nothing fits in `region` below `at`. */
  ghost predicate NoneBelow(at: nat, need: nat, region: Region, forbidden: seq<Region>) {
    forall a: nat :: a < at ==> !Fits(a, need, region, forbidden)
  }

  /** No candidate is skipped by jumping past a region it collides with. */
  lemma {:induction false} JumpSkipsNothing(candidate: nat, need: nat, f: Region, a: nat)
    requires candidate % FRAME == 0 && Sane(f) && candidate + need < LIMIT
    requires Overlaps(candidate, need, f.start, f.size)
    requires candidate <= a < AlignUp(f.End()) && a % FRAME == 0
    ensures Overlaps(a, need, f.start, f.size)
  {
    assert a < f.End();
  }

  /** The first forbidden region a candidate collides with, or the number of them. */
  method FirstCollision(candidate: nat, need: nat, forbidden: seq<Region>) returns (i: nat)
    ensures i <= |forbidden|
    ensures i < |forbidden| ==> Overlaps(candidate, need, forbidden[i].start, forbidden[i].size)
    ensures forall j :: 0 <= j < i ==> !Overlaps(candidate, need, forbidden[j].start, forbidden[j].size)
  {
    i := 0;
    while i < |forbidden| && !Overlaps(candidate, need, forbidden[i].start, forbidden[i].size)
      invariant i <= |forbidden|
      invariant forall j :: 0 <= j < i ==> !Overlaps(candidate, need, forbidden[j].start, forbidden[j].size)
    {
      i := i + 1;
    }
  }

  /** The scan of one RAM region. */
  method PlaceIn(need: nat, region: Region, forbidden: seq<Region>) returns (r: Placement)
    requires Sane(region) && AllSane(forbidden)
    ensures r.Placed? ==> Fits(r.at, need, region, forbidden) && NoneBelow(r.at, need, region, forbidden)
    ensures r.NoRoom? ==> forall a :: !Fits(a, need, region, forbidden)
    ensures r.Overflow? ==> forall a :: !Fits(a, need, region, forbidden)
    ensures r.Overflow? ==> region.End() + need + FRAME > LIMIT || exists i :: 0 <= i < |forbidden| && forbidden[i].End() + need + FRAME > LIMIT
  {
    var candidate := AlignUp(region.start);
    while true
      invariant candidate % FRAME == 0 && candidate >= region.start && NoneBelow(candidate, need, region, forbidden)
      invariant candidate < region.start + FRAME || exists i :: 0 <= i < |forbidden| && candidate < forbidden[i].End() + FRAME
      decreases region.End() - candidate
    {
      if candidate >= LIMIT || candidate + need >= LIMIT {
        return Overflow;
      }
      if candidate + need > region.End() {
        return NoRoom;
      }
      var i := FirstCollision(candidate, need, forbidden);
      if i == |forbidden| {
        return Placed(candidate);
      }
      var f := forbidden[i];
      forall a | candidate <= a < AlignUp(f.End()) ensures !Fits(a, need, region, forbidden) {
        if a % FRAME == 0 {
          JumpSkipsNothing(candidate, need, f, a);
        }
      }
      candidate := AlignUp(f.End());
    }
  }

  /** The first region that has room is the `k`th, and `at` is its lowest place. */
  ghost predicate PlacedAt(need: nat, ram: seq<Region>, forbidden: seq<Region>, k: nat, at: nat) {
    && k < |ram| && Fits(at, need, ram[k], forbidden) && NoneBelow(at, need, ram[k], forbidden)
    && forall i :: 0 <= i < k ==> Full(need, ram[i], forbidden)
  }

  ghost predicate Full(need: nat, region: Region, forbidden: seq<Region>) {
    forall a: nat :: !Fits(a, need, region, forbidden)
  }

  /** Where first fit puts `need` bytes, if it puts them anywhere: a matter of the memory map alone. */
  ghost function FirstFit(need: nat, ram: seq<Region>, forbidden: seq<Region>): Option<nat> {
    if exists k: nat, at: nat :: PlacedAt(need, ram, forbidden, k, at) then
      var k: nat, at: nat :| PlacedAt(need, ram, forbidden, k, at);
      Some(at)
    else
      None
  }

  lemma {:induction false} FirstFitIs(need: nat, ram: seq<Region>, forbidden: seq<Region>, k: nat, at: nat)
    requires PlacedAt(need, ram, forbidden, k, at)
    ensures FirstFit(need, ram, forbidden) == Some(at)
  {
    forall j: nat, b: nat | PlacedAt(need, ram, forbidden, j, b) ensures b == at {
      OnePlace(need, ram, forbidden, k, at, j, b);
    }
  }

  lemma {:induction false} OnePlace(need: nat, ram: seq<Region>, forbidden: seq<Region>, k: nat, at: nat, j: nat, b: nat)
    requires PlacedAt(need, ram, forbidden, k, at) && PlacedAt(need, ram, forbidden, j, b)
    ensures k == j && at == b
  {
  }

  /** There is no first fit exactly if nothing fits anywhere. */
  lemma {:induction false} NoFirstFit(need: nat, ram: seq<Region>, forbidden: seq<Region>)
    requires forall i :: 0 <= i < |ram| ==> Full(need, ram[i], forbidden)
    ensures FirstFit(need, ram, forbidden) == None
  {
    forall k: nat, at: nat ensures !PlacedAt(need, ram, forbidden, k, at) {
      assert k < |ram| ==> Full(need, ram[k], forbidden);
    }
  }

  /** Some region ends so near the top of the address space that the scan may run off it. */
  ghost predicate NearTop(need: nat, ram: seq<Region>, forbidden: seq<Region>) {
    exists f :: (f in ram || f in forbidden) && f.End() + need + FRAME > LIMIT
  }

  /**
   A correct and complete first fit over all of RAM: the first region that has room, its lowest place, and no
   place only if nothing fits. The scan runs off the address space only when some region ends near its top.
   */
  method PlaceBitmap(need: nat, ram: seq<Region>, forbidden: seq<Region>) returns (r: Placement)
    requires AllSane(ram) && AllSane(forbidden)
    ensures r.Placed? ==> FirstFit(need, ram, forbidden) == Some(r.at) && exists k: nat :: PlacedAt(need, ram, forbidden, k, r.at)
    ensures r.NoRoom? ==> FirstFit(need, ram, forbidden) == None
    ensures r.Overflow? ==> NearTop(need, ram, forbidden)
  {
    var i := 0;
    while i < |ram|
      invariant i <= |ram| && forall j :: 0 <= j < i ==> Full(need, ram[j], forbidden)
    {
      r := PlaceIn(need, ram[i], forbidden);
      if r.Overflow? {
        assert ram[i] in ram;
        return;
      }
      if r.Placed? {
        FirstFitIs(need, ram, forbidden, i, r.at);
        return;
      }
      i := i + 1;
    }
    NoFirstFit(need, ram, forbidden);
    return NoRoom;
  }

  // --- which frames can be handed out ---

  /** Frame `i` of an allocator that starts at `base` shares a byte with the region. */
  predicate Touches(base: nat, i: nat, r: Region) {
    r.size > 0 && r.start < base + (i + 1) * FRAME && base + i * FRAME < r.End()
  }

  ghost predicate TouchesAny(base: nat, i: nat, rs: seq<Region>) {
    exists j :: 0 <= j < |rs| && Touches(base, i, rs[j])
  }

  /** One flag per frame; everything starts used. */
  class FrameAllocator {
    const base: nat
    const used: array<bool>

    constructor (base: nat, total: nat)
      requires base % FRAME == 0
      ensures this.base == base && fresh(used) && used.Length == total
      ensures forall i :: 0 <= i < total ==> used[i]
    {
      this.base := base;
      used := new bool[total](_ => true);
    }

    /** Every frame index the run touches, clamped: start rounded down, end rounded up. */
    function FrameRange(start: nat, size: nat): (r: (nat, nat))
      requires base % FRAME == 0
      ensures r.0 <= r.1 <= used.Length
      ensures start + size < LIMIT ==> forall i :: 0 <= i < used.Length ==> (r.0 <= i < r.1 <==> Touches(base, i, Region(start, size)))
    {
      var end := Saturated(start + size);
      if size == 0 || end <= base then (0, 0)
      else
        var first := (if start > base then start else base) - base;
        var lo := first / FRAME;
        var hi := (end - base + FRAME - 1) / FRAME;
        var top := if hi < used.Length then hi else used.Length;
        if lo >= top then (0, 0) else (lo, top)
    }

    method Mark(start: nat, size: nat, flag: bool)
      requires base % FRAME == 0 && start + size < LIMIT
      modifies used
      ensures forall i :: 0 <= i < used.Length ==>
                used[i] == if Touches(base, i, Region(start, size)) then flag else old(used[i])
    {
      var (lo, hi) := FrameRange(start, size);
      var i := lo;
      while i < hi
        invariant lo <= i <= hi
        invariant forall j :: 0 <= j < used.Length ==> used[j] == if lo <= j < i then flag else old(used[j])
      {
        used[i] := flag;
        i := i + 1;
      }
    }

    /** Mark every region of a list, in order. */
    method MarkAll(rs: seq<Region>, flag: bool)
      requires base % FRAME == 0 && AllSane(rs)
      modifies used
      ensures forall i :: 0 <= i < used.Length ==> used[i] == if TouchesAny(base, i, rs) then flag else old(used[i])
    {
      var k := 0;
      while k < |rs|
        invariant k <= |rs|
        invariant forall i :: 0 <= i < used.Length ==> used[i] == if TouchesAny(base, i, rs[..k]) then flag else old(used[i])
      {
        Mark(rs[k].start, rs[k].size, flag);
        forall i | 0 <= i < used.Length ensures TouchesAny(base, i, rs[..k + 1]) <==> TouchesAny(base, i, rs[..k]) || Touches(base, i, rs[k]) {
          TouchesMore(base, i, rs, k);
        }
        k := k + 1;
      }
      assert rs[..|rs|] == rs;
    }
  }

  lemma {:induction false} TouchesMore(base: nat, i: nat, rs: seq<Region>, k: nat)
    requires k < |rs|
    ensures TouchesAny(base, i, rs[..k + 1]) <==> TouchesAny(base, i, rs[..k]) || Touches(base, i, rs[k])
  {
    if TouchesAny(base, i, rs[..k + 1]) {
      var j :| 0 <= j < k + 1 && Touches(base, i, rs[..k + 1][j]);
      assert j < k ==> rs[..k][j] == rs[..k + 1][j];
    }
    if TouchesAny(base, i, rs[..k]) {
      var j :| 0 <= j < k && Touches(base, i, rs[..k][j]);
      assert rs[..k + 1][j] == rs[..k][j];
    }
    assert rs[..k + 1][k] == rs[k];
  }

  // --- the bootstrap ---

  /** What the boot path has to keep off: every region that is not empty. */
  function Claims(rs: seq<Region>): seq<Region> {
    if rs == [] then [] else (if rs[0].size > 0 then [rs[0]] else []) + Claims(rs[1..])
  }

  lemma {:induction false} ClaimsAre(rs: seq<Region>)
    ensures |Claims(rs)| <= |rs|
    ensures forall r :: r in Claims(rs) <==> r in rs && r.size > 0
  {
    if rs != [] {
      ClaimsAre(rs[1..]);
      assert rs == [rs[0]] + rs[1..];
    }
  }

  lemma {:induction false} ClaimsConcat(a: seq<Region>, b: seq<Region>)
    ensures Claims(a + b) == Claims(a) + Claims(b)
  {
    if a == [] {
      assert a + b == b;
    } else {
      assert (a + b)[1..] == a[1..] + b;
      ClaimsConcat(a[1..], b);
    }
  }

  /** The forbidden list: a fixed array filled from the front. */
  class Forbidden {
    const regions: array<Region>
    var n: nat

    ghost predicate Valid()
      reads this
    {
      regions.Length == 2 * MAX_REGIONS + 3 && n <= regions.Length
    }

    function Listed(): seq<Region>
      requires Valid()
      reads this, regions
    {
      regions[..n]
    }

    constructor ()
      ensures Valid() && fresh(regions) && Listed() == []
    {
      regions := new Region[2 * MAX_REGIONS + 3](_ => Region(0, 0));
      n := 0;
    }

    /** One region, unless it is empty. The array has room for every claim the boot path makes. */
    method Claim(r: Region)
      requires Valid() && n < regions.Length
      modifies this`n, regions
      ensures Valid() && Listed() == old(Listed()) + Claims([r]) && n <= old(n) + 1
    {
      assert [r][1..] == [];
      if r.size > 0 {
        regions[n] := r;
        n := n + 1;
      }
    }

    method ClaimAll(rs: seq<Region>)
      requires Valid() && n + |rs| <= regions.Length
      modifies this`n, regions
      ensures Valid() && Listed() == old(Listed()) + Claims(rs) && n <= old(n) + |rs|
    {
      var k := 0;
      while k < |rs|
        invariant k <= |rs| && Valid() && n <= old(n) + k
        invariant Listed() == old(Listed()) + Claims(rs[..k])
      {
        ClaimsConcat(rs[..k], [rs[k]]);
        assert rs[..k + 1] == rs[..k] + [rs[k]];
        Claim(rs[k]);
        k := k + 1;
      }
      assert rs[..|rs|] == rs;
    }
  }

  /** A frame the allocator can hand out: some RAM touches it, nothing spoken for does. */
  ghost predicate Free(base: nat, i: nat, ram: seq<Region>, claimed: seq<Region>, bitmap: Region) {
    TouchesAny(base, i, ram) && !TouchesAny(base, i, claimed) && !Touches(base, i, bitmap)
  }

  function LowestStart(ram: seq<Region>): nat
    requires |ram| > 0
  {
    if |ram| == 1 then ram[0].start
    else
      var rest := LowestStart(ram[..|ram| - 1]);
      if ram[|ram| - 1].start < rest then ram[|ram| - 1].start else rest
  }

  function HighestEnd(ram: seq<Region>): nat
    requires |ram| > 0
  {
    if |ram| == 1 then ram[0].End()
    else
      var rest := HighestEnd(ram[..|ram| - 1]);
      if ram[|ram| - 1].End() > rest then ram[|ram| - 1].End() else rest
  }

  /** RAM runs from the lowest start to the highest end. */
  lemma {:induction false} SpanIs(ram: seq<Region>, i: nat)
    requires i < |ram|
    ensures LowestStart(ram) <= ram[i].start && ram[i].End() <= HighestEnd(ram)
  {
    if |ram| > 1 && i < |ram| - 1 {
      SpanIs(ram[..|ram| - 1], i);
    }
  }

  /** And no further: some region starts there, and some region ends there. */
  lemma {:induction false} SpanAttained(ram: seq<Region>)
    requires |ram| > 0
    ensures exists i :: 0 <= i < |ram| && ram[i].start == LowestStart(ram)
    ensures exists i :: 0 <= i < |ram| && ram[i].End() == HighestEnd(ram)
  {
    var last := |ram| - 1;
    if last == 0 {
      assert ram[0].start == LowestStart(ram) && ram[0].End() == HighestEnd(ram);
    } else {
      SpanAttained(ram[..last]);
      var i :| 0 <= i < last && ram[..last][i].start == LowestStart(ram[..last]);
      var j :| 0 <= j < last && ram[..last][j].End() == HighestEnd(ram[..last]);
      assert ram[i].start == LowestStart(ram) || ram[last].start == LowestStart(ram);
      assert ram[j].End() == HighestEnd(ram) || ram[last].End() == HighestEnd(ram);
    }
  }

  function FramesIn(span: nat): nat { span / FRAME }

  function BitmapBytes(frames: nat): nat { (frames + 7) / 8 }

  /** How many frames the allocator tracks, and how many bytes it needs for that. */
  function Total(ram: seq<Region>): nat
    requires |ram| > 0
  {
    SpanIs(ram, 0);
    FramesIn(HighestEnd(ram) - LowestStart(ram))
  }

  function Need(ram: seq<Region>): nat
    requires |ram| > 0
  {
    BitmapBytes(Total(ram))
  }

  /** The bitmap has a bit for every frame tracked, less than a byte to spare, and every whole frame of RAM is tracked. */
  lemma {:induction false} NeedIs(ram: seq<Region>)
    requires |ram| > 0
    ensures Total(ram) <= 8 * Need(ram) < Total(ram) + 8
    ensures forall i: nat, j: nat :: j < |ram| && InRegion(LowestStart(ram), i, ram[j]) ==> i < Total(ram)
  {
    forall i: nat, j: nat | j < |ram| && InRegion(LowestStart(ram), i, ram[j]) ensures i < Total(ram) {
      SpanIs(ram, j);
    }
  }

  /** Where the bitmap goes on this memory map, if anywhere. */
  ghost function BitmapPlace(ram: seq<Region>, claimed: seq<Region>): Option<nat>
    requires |ram| > 0
  {
    FirstFit(Need(ram), ram, claimed)
  }

  method LowestAndHighest(ram: seq<Region>) returns (base: nat, top: nat)
    requires |ram| > 0
    ensures base == LowestStart(ram) && top == HighestEnd(ram)
    ensures forall i :: 0 <= i < |ram| ==> base <= ram[i].start && ram[i].End() <= top
    ensures exists i :: 0 <= i < |ram| && ram[i].start == base
    ensures exists i :: 0 <= i < |ram| && ram[i].End() == top
  {
    SpanAttained(ram);
    forall i | 0 <= i < |ram| ensures LowestStart(ram) <= ram[i].start && ram[i].End() <= HighestEnd(ram) {
      SpanIs(ram, i);
    }
    base, top := ram[0].start, ram[0].End();
    var i := 1;
    assert ram[..1] == [ram[0]];
    while i < |ram|
      invariant 1 <= i <= |ram| && base == LowestStart(ram[..i]) && top == HighestEnd(ram[..i])
    {
      assert ram[..i + 1][..i] == ram[..i] && ram[..i + 1][i] == ram[i];
      if ram[i].start < base {
        base := ram[i].start;
      }
      if ram[i].End() > top {
        top := ram[i].End();
      }
      i := i + 1;
    }
    assert ram[..i] == ram;
  }

  /** Image, device tree and initrd, then both kinds of reservation: never more than the array holds. */
  method CollectClaims(fixed: seq<Region>, reserved: seq<Region>, reservedMemory: seq<Region>) returns (forbidden: seq<Region>)
    requires |fixed| <= 3 && |reserved| <= MAX_REGIONS && |reservedMemory| <= MAX_REGIONS
    ensures forbidden == Claims(fixed + reserved + reservedMemory)
  {
    var claims := new Forbidden();
    claims.ClaimAll(fixed);
    assert claims.Listed() == Claims(fixed);
    ClaimsConcat(fixed, reserved);
    claims.ClaimAll(reserved);
    assert claims.Listed() == Claims(fixed + reserved);
    ClaimsConcat(fixed + reserved, reservedMemory);
    claims.ClaimAll(reservedMemory);
    return claims.Listed();
  }

  datatype Boot = Ready(allocator: FrameAllocator, bitmap: Region) | Panic

  /**
   Free RAM first, then take back everything spoken for, the bitmap's own frames last. The boot stops if and
   only if RAM is absent or does not start on a frame or the bitmap fits nowhere, as long as no region ends near
   the top of the address space.
   */
  method Bootstrap(ram: seq<Region>, fixed: seq<Region>, reserved: seq<Region>, reservedMemory: seq<Region>) returns (r: Boot)
    requires |ram| <= MAX_REGIONS && |fixed| <= 3 && |reserved| <= MAX_REGIONS && |reservedMemory| <= MAX_REGIONS
    requires AllSane(ram) && AllSane(fixed) && AllSane(reserved) && AllSane(reservedMemory)
    ensures r.Ready? ==>
              var claimed := Claims(fixed + reserved + reservedMemory);
              && |ram| > 0 && r.allocator.base == LowestStart(ram) && r.allocator.base % FRAME == 0
              && r.allocator.used.Length == Total(ram)
              && r.bitmap.size == Need(ram) && BitmapPlace(ram, claimed) == Some(r.bitmap.start)
              && forall i :: 0 <= i < r.allocator.used.Length ==>
                   (!r.allocator.used[i] <==> Free(r.allocator.base, i, ram, claimed, r.bitmap))
    ensures var claimed := Claims(fixed + reserved + reservedMemory);
            |ram| == 0 || !NearTop(Need(ram), ram, claimed) ==>
              (r.Panic? <==> |ram| == 0 || LowestStart(ram) % FRAME != 0 || BitmapPlace(ram, claimed) == None)
    ensures r.Ready? ==>
              && r.allocator.used.Length <= 8 * r.bitmap.size < r.allocator.used.Length + 8
              && forall i: nat, j: nat :: j < |ram| && InRegion(r.allocator.base, i, ram[j]) ==> i < r.allocator.used.Length
    ensures r.Ready? ==>
              ((forall i :: 0 <= i < r.allocator.used.Length && !r.allocator.used[i] ==> LiesInRam(r.allocator.base, i, ram)) <==>
               EdgesSafe(ram, Claims(fixed + reserved + reservedMemory)))
  {
    if |ram| == 0 {
      return Panic;
    }
    var base, top := LowestAndHighest(ram);
    SpanIs(ram, 0);
    NeedIs(ram);
    var total := FramesIn(top - base);
    var forbidden := CollectClaims(fixed, reserved, reservedMemory);
    ClaimsSane(fixed + reserved + reservedMemory);
    var need := BitmapBytes(total);
    var placed := PlaceBitmap(need, ram, forbidden);
    if !placed.Placed? || base % FRAME != 0 {
      return Panic;
    }
    PlaceIsSane(need, ram, forbidden, placed.at);
    var allocator := MarkUp(base, total, ram, forbidden, Region(placed.at, need));
    BootIsRamIff(ram, forbidden, allocator.used[..]);
    return Ready(allocator, Region(placed.at, need));
  }

  /** Everything starts used; RAM is freed, and what is spoken for is taken back. */
  method MarkUp(base: nat, total: nat, ram: seq<Region>, forbidden: seq<Region>, bitmap: Region) returns (allocator: FrameAllocator)
    requires base % FRAME == 0 && AllSane(ram) && AllSane(forbidden) && Sane(bitmap)
    ensures fresh(allocator) && fresh(allocator.used) && allocator.base == base && allocator.used.Length == total
    ensures forall i :: 0 <= i < total ==> (!allocator.used[i] <==> Free(base, i, ram, forbidden, bitmap))
  {
    allocator := new FrameAllocator(base, total);
    allocator.MarkAll(ram, false);
    allocator.MarkAll(forbidden, true);
    allocator.Mark(bitmap.start, bitmap.size, true);
  }

  lemma {:induction false} PlaceIsSane(need: nat, ram: seq<Region>, forbidden: seq<Region>, at: nat)
    requires AllSane(ram) && exists k: nat :: PlacedAt(need, ram, forbidden, k, at)
    ensures Sane(Region(at, need))
  {
    var k: nat :| PlacedAt(need, ram, forbidden, k, at);
    assert Sane(ram[k]);
  }

  lemma {:induction false} BootIsRamIff(ram: seq<Region>, claimed: seq<Region>, used: seq<bool>)
    requires |ram| > 0 && BitmapPlace(ram, claimed).Some? && |used| == Total(ram)
    requires forall i :: 0 <= i < |used| ==>
               (!used[i] <==> Free(LowestStart(ram), i, ram, claimed, Region(BitmapPlace(ram, claimed).value, Need(ram))))
    ensures (forall i :: 0 <= i < |used| && !used[i] ==> LiesInRam(LowestStart(ram), i, ram)) <==> EdgesSafe(ram, claimed)
  {
    FreeIsRamIff(ram, claimed);
  }

  lemma {:induction false} ClaimsSane(rs: seq<Region>)
    requires AllSane(rs)
    ensures AllSane(Claims(rs))
  {
    ClaimsAre(rs);
    var claimed := Claims(rs);
    forall i | 0 <= i < |claimed| ensures Sane(claimed[i]) {
      assert claimed[i] in rs;
    }
  }

  // --- and whether those frames are RAM ---

  predicate InRegion(base: nat, i: nat, r: Region) {
    r.start <= base + i * FRAME && base + (i + 1) * FRAME <= r.End()
  }

  ghost predicate IsRam(ram: seq<Region>, x: nat) {
    exists j :: 0 <= j < |ram| && Covers(ram[j].start, ram[j].size, x)
  }

  /** Every byte of the frame is in some RAM region. */
  ghost predicate LiesInRam(base: nat, i: nat, ram: seq<Region>) {
    forall x :: base + i * FRAME <= x < base + (i + 1) * FRAME ==> IsRam(ram, x)
  }

  /** The frames a region's first and last bytes are in: the only ones it can cover in part. */
  function Edges(base: nat, r: Region): set<nat> {
    if r.size == 0 || r.start < base then {} else {(r.start - base) / FRAME, (r.End() - 1 - base) / FRAME}
  }

  lemma {:induction false} RaggedIsEdge(base: nat, i: nat, r: Region)
    requires base <= r.start && Touches(base, i, r) && !InRegion(base, i, r)
    ensures i in Edges(base, r)
  {
    if r.start > base + i * FRAME {
      assert (r.start - base) / FRAME == i;
    } else {
      assert (r.End() - 1 - base) / FRAME == i;
    }
  }

  lemma {:induction false} EdgeTouches(base: nat, e: nat, r: Region)
    requires e in Edges(base, r)
    ensures Touches(base, e, r)
  {
  }

  /** The bytes of frame `e` that region `j` leaves out are in other regions. */
  ghost predicate Completed(base: nat, e: nat, ram: seq<Region>, j: nat)
    requires j < |ram|
  {
    forall x :: base + e * FRAME <= x < base + (e + 1) * FRAME && !Covers(ram[j].start, ram[j].size, x) ==> IsRam(ram, x)
  }

  /**
   A memory map that hands out no half frame: each edge frame of each region is whole, or completed by other
   regions, or beyond what the allocator tracks, or touched by a claim, or by the bitmap in its place.
   */
  ghost predicate EdgesSafe(ram: seq<Region>, claimed: seq<Region>)
    requires |ram| > 0 && BitmapPlace(ram, claimed).Some?
  {
    forall j, e :: 0 <= j < |ram| && e in Edges(LowestStart(ram), ram[j]) ==> EdgeSafe(ram, claimed, j, e)
  }

  ghost predicate EdgeSafe(ram: seq<Region>, claimed: seq<Region>, j: nat, e: nat)
    requires j < |ram| && BitmapPlace(ram, claimed).Some?
  {
    var base := LowestStart(ram);
    || InRegion(base, e, ram[j])
    || Completed(base, e, ram, j)
    || e >= Total(ram)
    || TouchesAny(base, e, claimed)
    || Touches(base, e, Region(BitmapPlace(ram, claimed).value, Need(ram)))
  }

  /** Every frame the boot leaves free on this memory map lies in RAM. */
  ghost predicate HandsOutRam(ram: seq<Region>, claimed: seq<Region>)
    requires |ram| > 0 && BitmapPlace(ram, claimed).Some?
  {
    var base, bitmap := LowestStart(ram), Region(BitmapPlace(ram, claimed).value, Need(ram));
    forall i :: 0 <= i < Total(ram) && Free(base, i, ram, claimed, bitmap) ==> LiesInRam(base, i, ram)
  }

  /**
   Marking rounds outward, so a frame a region only partly covers is freed too. Every frame handed out lies in
   RAM if and only if the edge frames of the memory map are safe; in particular when the regions are whole frames.
   */
  lemma {:induction false} FreeIsRamIff(ram: seq<Region>, claimed: seq<Region>)
    requires |ram| > 0 && BitmapPlace(ram, claimed).Some?
    ensures HandsOutRam(ram, claimed) <==> EdgesSafe(ram, claimed)
  {
    if HandsOutRam(ram, claimed) {
      forall j, e | 0 <= j < |ram| && e in Edges(LowestStart(ram), ram[j]) ensures EdgeSafe(ram, claimed, j, e) {
        RamIsSafe(ram, claimed, j, e);
      }
    }
    if EdgesSafe(ram, claimed) {
      forall i | 0 <= i < Total(ram) && Free(LowestStart(ram), i, ram, claimed, Region(BitmapPlace(ram, claimed).value, Need(ram)))
        ensures LiesInRam(LowestStart(ram), i, ram)
      {
        SafeIsRam(ram, claimed, i);
      }
    }
  }

  lemma {:induction false} RamIsSafe(ram: seq<Region>, claimed: seq<Region>, j: nat, e: nat)
    requires j < |ram| && BitmapPlace(ram, claimed).Some? && HandsOutRam(ram, claimed) && e in Edges(LowestStart(ram), ram[j])
    ensures EdgeSafe(ram, claimed, j, e)
  {
    var base, bitmap := LowestStart(ram), Region(BitmapPlace(ram, claimed).value, Need(ram));
    EdgeTouches(base, e, ram[j]);
    assert TouchesAny(base, e, ram);
    if e < Total(ram) && Free(base, e, ram, claimed, bitmap) {
      assert LiesInRam(base, e, ram);
    }
  }

  lemma {:induction false} SafeIsRam(ram: seq<Region>, claimed: seq<Region>, i: nat)
    requires |ram| > 0 && BitmapPlace(ram, claimed).Some? && EdgesSafe(ram, claimed) && i < Total(ram)
    requires Free(LowestStart(ram), i, ram, claimed, Region(BitmapPlace(ram, claimed).value, Need(ram)))
    ensures LiesInRam(LowestStart(ram), i, ram)
  {
    var base := LowestStart(ram);
    var j :| 0 <= j < |ram| && Touches(base, i, ram[j]);
    SpanIs(ram, j);
    if InRegion(base, i, ram[j]) {
      WholeFrameInRam(base, i, ram, j);
    } else {
      RaggedIsEdge(base, i, ram[j]);
      assert EdgeSafe(ram, claimed, j, i);
      forall x | base + i * FRAME <= x < base + (i + 1) * FRAME ensures IsRam(ram, x) {
        assert Covers(ram[j].start, ram[j].size, x) ==> IsRam(ram, x);
      }
    }
  }

  lemma {:induction false} WholeFrameInRam(base: nat, i: nat, ram: seq<Region>, j: nat)
    requires j < |ram| && InRegion(base, i, ram[j])
    ensures LiesInRam(base, i, ram)
  {
    forall x | base + i * FRAME <= x < base + (i + 1) * FRAME ensures IsRam(ram, x) {
      assert Covers(ram[j].start, ram[j].size, x);
    }
  }

  lemma {:induction false} WholeFramesAreRam(base: nat, i: nat, ram: seq<Region>)
    requires base % FRAME == 0 && TouchesAny(base, i, ram)
    requires forall j :: 0 <= j < |ram| ==> ram[j].start % FRAME == 0 && ram[j].size % FRAME == 0
    ensures LiesInRam(base, i, ram)
  {
    var j :| 0 <= j < |ram| && Touches(base, i, ram[j]);
    WholeFrameTouched(base, i, ram[j], base / FRAME, ram[j].start / FRAME, ram[j].size / FRAME);
    WholeFrameInRam(base, i, ram, j);
  }

  lemma {:induction false} WholeFrameTouched(base: nat, i: nat, r: Region, b: nat, s: nat, z: nat)
    requires Touches(base, i, r) && base == b * FRAME && r.start == s * FRAME && r.size == z * FRAME
    ensures InRegion(base, i, r)
  {
  }

  // --- a boot that hands out half a frame ---

  /** Two banks, the first ending in the middle of a frame; the kernel image at the start of RAM, the device tree in the second bank. */
  const RAGGED: seq<Region> := [Region(0x1000, 0x2800), Region(0x5000, 0x2000)]
  const IMAGE_AND_TREE: seq<Region> := [Region(0x1000, 0x800), Region(0x5000, 0x100)]

  lemma {:induction false} RaggedMap()
    ensures LowestStart(RAGGED) == 0x1000 && HighestEnd(RAGGED) == 0x7000 && Total(RAGGED) == 6 && Need(RAGGED) == 1
    ensures Claims(IMAGE_AND_TREE + [] + []) == IMAGE_AND_TREE
  {
    assert RAGGED[..1] == [RAGGED[0]];
    assert IMAGE_AND_TREE + [] + [] == IMAGE_AND_TREE;
    assert IMAGE_AND_TREE[1..] == [Region(0x5000, 0x100)] && IMAGE_AND_TREE[1..][1..] == [];
  }

  lemma {:induction false} RaggedPlace()
    ensures BitmapPlace(RAGGED, IMAGE_AND_TREE) == Some(0x2000)
  {
    RaggedMap();
    assert Overlaps(0x1000, 1, IMAGE_AND_TREE[0].start, IMAGE_AND_TREE[0].size);
    assert Fits(0x2000, 1, RAGGED[0], IMAGE_AND_TREE) && NoneBelow(0x2000, 1, RAGGED[0], IMAGE_AND_TREE);
    FirstFitIs(1, RAGGED, IMAGE_AND_TREE, 0, 0x2000);
  }

  lemma {:induction false} RaggedFrame()
    ensures Free(0x1000, 2, RAGGED, IMAGE_AND_TREE, Region(0x2000, 1)) && !LiesInRam(0x1000, 2, RAGGED)
    ensures !NearTop(1, RAGGED, IMAGE_AND_TREE)
  {
    assert Touches(0x1000, 2, RAGGED[0]);
    assert !IsRam(RAGGED, 0x3800);
    assert forall f :: f in RAGGED || f in IMAGE_AND_TREE ==> f.End() <= 0x7000;
  }

  /** The boot on that map succeeds, and its allocator can hand out a frame whose upper half is not RAM. */
  method RaggedBoot() returns (r: Boot)
    ensures r.Ready? && r.allocator.used.Length == 6 && !r.allocator.used[2] && !LiesInRam(r.allocator.base, 2, RAGGED)
  {
    RaggedMap();
    RaggedPlace();
    RaggedFrame();
    r := Bootstrap(RAGGED, IMAGE_AND_TREE, [], []);
  }
}
