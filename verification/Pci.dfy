/**
 Where the kernel puts the memory BARs of PCI functions: one cursor for all functions, which only moves
 forward, and two registers a 64-bit BAR.
 */
module Pci {
  import opened Basics

  const WORD: nat := 0x1_0000_0000

  /** The slice of the window that is mapped. */
  const PCI_BAR_MAPPED: nat := 0x20_0000

  /** The BAR slots of a function, and the register after them that a 64-bit BAR in the last slot would reach. */
  const SLOTS: nat := 6

  datatype Bar = Bar(base: nat, size: nat, is64: bool)

  /** A run of addresses given to one BAR. */
  datatype Span = Span(base: nat, size: nat)

  function Alignment(size: nat): nat { if size > 16 then size else 16 }

  function Times(k: nat, of: nat): nat { k * of }

  /** A whole multiple. */
  ghost predicate AlignedTo(v: nat, of: nat) {
    exists k :: v == Times(k, of)
  }

  function NextMultiple(v: nat, of: nat): (r: nat)
    requires of > 0
    ensures AlignedTo(r, of) && v <= r < v + of
  {
    var up := v + of - 1;
    assert up == up / of * of + up % of;
    Times(up / of, of)
  }

  /** BAR sizes are whole multiples of 16, so an aligned base has room for the flag bits below it. */
  lemma {:induction false} AlignedTo16(v: nat, size: nat)
    requires AlignedTo(v, Alignment(size)) && size % 16 == 0
    ensures v % 16 == 0
  {
    var k :| v == Times(k, Alignment(size));
    Regroup(k, Alignment(size) / 16);
  }

  lemma {:induction false} Regroup(k: nat, m: nat)
    ensures Times(k, 16 * m) % 16 == 0
  {
    assert k * (16 * m) == 16 * (k * m);
  }

  /** The low register of a 64-bit BAR has bit 2 set. */
  function WithWidth(lo: nat): nat { if lo / 4 % 2 == 0 then lo + 4 else lo }

  /** The address the written registers decode to: the low four bits are flags. */
  function Decoded(lo: nat, hi: nat, is64: bool): nat {
    (lo - lo % 16) + if is64 then hi * WORD else 0
  }

  ghost predicate SpanOk(s: Span, from: nat, limit: nat) {
    from <= s.base && s.base + s.size <= limit && AlignedTo(s.base, Alignment(s.size))
  }

  /** Spans in the order they were handed out, each behind the one before. */
  ghost predicate Stacked(spans: seq<Span>, from: nat, next: nat) {
    && (forall i :: 0 <= i < |spans| ==> SpanOk(spans[i], from, next))
    && forall i, j :: 0 <= i < j < |spans| ==> spans[i].base + spans[i].size <= spans[j].base
  }

  /** No two spans share an address. */
  lemma {:induction false} StackedIsDisjoint(spans: seq<Span>, from: nat, next: nat, i: nat, j: nat, x: nat)
    requires Stacked(spans, from, next) && i < |spans| && j < |spans| && i != j
    requires spans[i].base <= x < spans[i].base + spans[i].size
    ensures !(spans[j].base <= x < spans[j].base + spans[j].size)
  {
    assert i < j ==> spans[i].base + spans[i].size <= spans[j].base;
    assert j < i ==> spans[j].base + spans[j].size <= spans[i].base;
  }

  /** The registers written for a BAR decode to its address if and only if the BAR is 64 bits wide or the address fits 32. */
  lemma {:induction false} DecodedIff(base: nat, is64: bool)
    requires base % 16 == 0 && base < WORD * WORD
    ensures var lo, hi := (if is64 then WithWidth(base % WORD) else base % WORD), base / WORD % WORD;
            Decoded(lo, hi, is64) == base <==> is64 || base < WORD
  {
    assert base == base / WORD * WORD + base % WORD;
    assert base % WORD % 16 == 0;
    assert base / WORD < WORD;
  }

  // --- where each BAR of a function goes ---

  /** A BAR that nobody has placed. */
  predicate Unassigned(bar: Option<Bar>) { bar.Some? && bar.value.base == 0 }

  /** The cursor when BAR `i` is reached, if every BAR before it has been placed. */
  function CursorAt(bars: seq<Option<Bar>>, next: nat, i: nat): nat
    requires i <= |bars|
    decreases i, 0
  {
    if i == 0 then next
    else if Unassigned(bars[i - 1]) then PlaceOf(bars, next, i - 1) + bars[i - 1].value.size
    else CursorAt(bars, next, i - 1)
  }

  /** The first address from there on that is aligned for BAR `i`. */
  function PlaceOf(bars: seq<Option<Bar>>, next: nat, i: nat): nat
    requires i < |bars| && bars[i].Some?
    decreases i, 1
  {
    NextMultiple(CursorAt(bars, next, i), Alignment(bars[i].value.size))
  }

  /** The first `n` BARs have room below `limit`, those of them that are unassigned. */
  predicate RoomFor(bars: seq<Option<Bar>>, next: nat, limit: nat, n: nat)
    requires n <= |bars|
  {
    forall j :: 0 <= j < n && Unassigned(bars[j]) ==> PlaceOf(bars, next, j) + bars[j].value.size <= limit
  }

  /** BAR `i` is one that gets placed. */
  predicate GetsPlaced(bars: seq<Option<Bar>>, next: nat, limit: nat, i: nat)
    requires i < |bars|
  {
    Unassigned(bars[i]) && RoomFor(bars, next, limit, i + 1)
  }

  /** BAR `i` after placement: at its place if it gets one, else as it was. */
  function Outcome(bars: seq<Option<Bar>>, next: nat, limit: nat, i: nat): Option<Bar>
    requires i < |bars|
  {
    if GetsPlaced(bars, next, limit, i) then Some(bars[i].value.(base := PlaceOf(bars, next, i))) else bars[i]
  }

  /** The upper half of a 64-bit BAR is no BAR of its own. */
  predicate Paired(bars: seq<Option<Bar>>) {
    forall i :: 0 <= i < |bars| - 1 && bars[i].Some? && bars[i].value.is64 ==> bars[i + 1].None?
  }

  /** Memory BARs are positive multiples of 16 bytes. */
  predicate Sized(bars: seq<Option<Bar>>) {
    forall i :: 0 <= i < |bars| && bars[i].Some? ==> bars[i].value.size > 0 && bars[i].value.size % 16 == 0
  }

  /** The registers of slot `i` hold the address `base`. */
  predicate RegsHold(regs: seq<nat>, i: nat, base: nat, is64: bool)
    requires i + 1 < |regs|
  {
    && regs[i] == (if is64 then WithWidth(base % WORD) else base % WORD)
    && (is64 ==> regs[i + 1] == base / WORD % WORD)
  }

  /** The device decodes the address the kernel placed it at exactly when the BAR can hold it, which its place tells beforehand. */
  lemma {:induction false} PlacedDecodes(bars: seq<Option<Bar>>, next: nat, limit: nat, regs: seq<nat>, i: nat)
    requires i < |bars| && i + 1 < |regs| && Sized(bars) && GetsPlaced(bars, next, limit, i)
    requires RegsHold(regs, i, PlaceOf(bars, next, i), bars[i].value.is64)
    ensures limit <= WORD * WORD ==>
              (Decoded(regs[i], regs[i + 1], bars[i].value.is64) == PlaceOf(bars, next, i) <==> bars[i].value.is64 || PlaceOf(bars, next, i) < WORD)
    ensures limit <= WORD ==> Decoded(regs[i], regs[i + 1], bars[i].value.is64) == PlaceOf(bars, next, i)
  {
    var base := PlaceOf(bars, next, i);
    AlignedTo16(base, bars[i].value.size);
    assert base + bars[i].value.size <= limit;
    if limit <= WORD * WORD {
      DecodedIff(base, bars[i].value.is64);
    }
  }

  lemma {:induction false} WidthFlag(lo: nat)
    requires lo % 16 == 0
    ensures WithWidth(lo) == lo + 4
  {
    assert lo / 4 == 2 * (2 * (lo / 16));
  }

  lemma {:induction false} LowWord(base: nat)
    requires base % 16 == 0
    ensures base % WORD % 16 == 0
  {
  }

  lemma {:induction false} FlagsAre(base: nat, is64: bool)
    requires base % 16 == 0
    ensures (if is64 then WithWidth(base % WORD) else base % WORD) == base % WORD + if is64 then 4 else 0
  {
    LowWord(base);
    WidthFlag(base % WORD);
  }

  /** A placed BAR lies at the first whole multiple of its size, and its flag bits say how wide it is. */
  lemma {:induction false} PlacedAligned(bars: seq<Option<Bar>>, next: nat, limit: nat, regs: seq<nat>, i: nat)
    requires i < |bars| && i + 1 < |regs| && Sized(bars) && GetsPlaced(bars, next, limit, i)
    requires RegsHold(regs, i, PlaceOf(bars, next, i), bars[i].value.is64)
    ensures CursorAt(bars, next, i) <= PlaceOf(bars, next, i) < CursorAt(bars, next, i) + bars[i].value.size
    ensures AlignedTo(PlaceOf(bars, next, i), bars[i].value.size) && regs[i] == PlaceOf(bars, next, i) % WORD + if bars[i].value.is64 then 4 else 0
  {
    AlignedTo16(PlaceOf(bars, next, i), bars[i].value.size);
    FlagsAre(PlaceOf(bars, next, i), bars[i].value.is64);
  }

  class BarWindow {
    /** The cached ECAM base, which stands for "the host bridge has been found". */
    var ecam: nat
    var next: nat
    var limit: nat

    /** The bottom of the window, and everything ever placed. */
    ghost var from: nat
    ghost var placed: seq<Span>

    ghost predicate Valid()
      reads this
    {
      from <= next <= limit
    }

    /** Everything ever placed is in the window, below the cursor, and stacked. */
    ghost predicate Sound()
      reads this
    {
      Stacked(placed, from, next)
    }

    constructor ()
      ensures Valid() && Sound() && ecam == 0 && placed == []
    {
      ecam, next, limit, from, placed := 0, 0, 0, 0, [];
    }

    /**
     Cache the windows of the tree's host bridge. A nonzero ECAM base is cached once, and then the cursor stays; a
     tree whose ECAM is at address 0 is cached on every call, and that takes back what has been placed.
     */
    method HostBridgePresent(tree: Option<(nat, nat, nat)>) returns (present: bool)
      requires Valid()
      modifies this
      ensures Valid() && placed == old(placed) && (present <==> old(ecam) != 0 || tree.Some?)
      ensures old(ecam) != 0 || tree.None? ==> ecam == old(ecam) && next == old(next) && limit == old(limit) && from == old(from)
      ensures old(ecam) == 0 && tree.Some? ==>
                && ecam == tree.value.0 && next == from == tree.value.1
                && limit == tree.value.1 + (if PCI_BAR_MAPPED < tree.value.2 then PCI_BAR_MAPPED else tree.value.2)
      ensures next < old(next) <==> old(ecam) == 0 && tree.Some? && tree.value.1 < old(next)
      ensures old(Sound()) && (forall s :: s in old(placed) ==> s.size > 0) ==>
                (Sound() <==> old(ecam) != 0 || tree.None? || old(placed) == [])
    {
      if ecam != 0 {
        return true;
      }
      if tree.None? {
        return false;
      }
      var (e, bar, size) := tree.value;
      next := bar;
      limit := bar + (if PCI_BAR_MAPPED < size then PCI_BAR_MAPPED else size);
      ecam := e;
      from := bar;
      assert placed != [] ==> placed[0] in placed && (Sound() ==> SpanOk(placed[0], from, next));
      return true;
    }

    /** Reserve one aligned run, or say that the window is exhausted. */
    method Reserve(size: nat) returns (base: Option<nat>)
      requires Valid()
      modifies this`next, this`placed
      ensures Valid() && old(next) <= next && (old(Sound()) ==> Sound())
      ensures var at := NextMultiple(old(next), Alignment(size));
              if at + size <= limit then base == Some(at) && next == at + size && placed == old(placed) + [Span(at, size)]
              else base == None && next == old(next) && placed == old(placed)
    {
      var at := NextMultiple(next, Alignment(size));
      if at + size > limit {
        return None;
      }
      next := at + size;
      placed := placed + [Span(at, size)];
      return Some(at);
    }

    /** One BAR: reserve its run, write its registers, note its address. */
    method PlaceBar(bars: array<Option<Bar>>, regs: array<nat>, i: nat) returns (ok: bool)
      requires Valid() && bars.Length == SLOTS && regs.Length == SLOTS + 1 && i < SLOTS && Unassigned(bars[i])
      modifies this`next, this`placed, bars, regs
      ensures Valid() && old(next) <= next && (old(Sound()) ==> Sound())
      ensures var bar := old(bars[i]).value;
              var at := NextMultiple(old(next), Alignment(bar.size));
              && (ok <==> at + bar.size <= limit)
              && (!ok ==> next == old(next) && placed == old(placed) && bars[..] == old(bars[..]) && regs[..] == old(regs[..]))
              && (ok ==> && next == at + bar.size && placed == old(placed) + [Span(at, bar.size)]
                         && bars[..] == old(bars[..])[i := Some(bar.(base := at))]
                         && RegsHold(regs[..], i, at, bar.is64))
      ensures forall j :: 0 <= j < regs.Length && j != i && !(j == i + 1 && old(bars[i]).value.is64) ==> regs[j] == old(regs[j])
    {
      var bar := bars[i].value;
      var base := Reserve(bar.size);
      if base.None? {
        return false;
      }
      regs[i] := if bar.is64 then WithWidth(base.value % WORD) else base.value % WORD;
      if bar.is64 {
        regs[i + 1] := base.value / WORD % WORD;
      }
      bars[i] := Some(bar.(base := base.value));
      return true;
    }

    /**
     Place every unassigned BAR of one function, in order; one that carries an address is left alone. When the
     window runs out, the BARs before that one stay placed. Each address written decodes to the place given,
     exactly when the BAR is wide enough for it.
     */
    method PlaceBars(bars: array<Option<Bar>>, regs: array<nat>) returns (ok: bool)
      requires Valid() && bars.Length == SLOTS && regs.Length == SLOTS + 1
      modifies this`next, this`placed, bars, regs
      ensures Valid() && old(next) <= next && (old(Sound()) ==> Sound())
      ensures forall i :: 0 <= i < SLOTS ==> bars[i] == Outcome(old(bars[..]), old(next), limit, i)
      ensures ok <==> RoomFor(old(bars[..]), old(next), limit, SLOTS)
      ensures ok ==> next == CursorAt(old(bars[..]), old(next), SLOTS)
      ensures |old(placed)| <= |placed| && placed[..|old(placed)|] == old(placed)
      ensures forall i :: 0 <= i < SLOTS && GetsPlaced(old(bars[..]), old(next), limit, i) ==>
                Span(PlaceOf(old(bars[..]), old(next), i), old(bars[..])[i].value.size) in placed[|old(placed)|..]
      ensures Paired(old(bars[..])) && Sized(old(bars[..])) ==> AllDecode(old(bars[..]), old(next), limit, regs[..])
    {
      ghost var was, from, before, spans := bars[..], next, placed, [];
      var i := 0;
      while i < SLOTS
        invariant i <= SLOTS && Valid() && old(next) <= next && placed == before + spans && (old(Sound()) ==> Sound())
        invariant next == CursorAt(was, from, i) && RoomFor(was, from, limit, i)
        invariant forall j :: i <= j < SLOTS ==> bars[j] == was[j]
        invariant forall j :: 0 <= j < i ==> bars[j] == Moved(was, from, j)
        invariant forall j :: 0 <= j < i && Unassigned(was[j]) ==> Span(PlaceOf(was, from, j), was[j].value.size) in spans
        invariant Paired(was) ==> Written(was, from, i, regs[..])
      {
        ghost var earlier := regs[..];
        if bars[i].Some? && bars[i].value.base == 0 {
          var placedOne := PlaceBar(bars, regs, i);
          if !placedOne {
            Stopped(was, from, limit, i);
            DecodesAll(was, from, limit, i, regs[..]);
            return false;
          }
          spans := spans + [Span(PlaceOf(was, from, i), was[i].value.size)];
          StillWritten(was, from, i, earlier, regs[..]);
        }
        i := i + 1;
      }
      DecodesAll(was, from, limit, i, regs[..]);
      return true;
    }
  }

  function Moved(bars: seq<Option<Bar>>, next: nat, i: nat): Option<Bar>
    requires i < |bars|
  {
    if Unassigned(bars[i]) then Some(bars[i].value.(base := PlaceOf(bars, next, i))) else bars[i]
  }

  /** The registers of the first `n` BARs hold the places of those that were unassigned. */
  predicate Written(bars: seq<Option<Bar>>, next: nat, n: nat, regs: seq<nat>)
    requires n <= |bars| < |regs|
  {
    forall j :: 0 <= j < n && Unassigned(bars[j]) ==> RegsHold(regs, j, PlaceOf(bars, next, j), bars[j].value.is64)
  }

  /** Writing the registers of one more BAR disturbs no earlier one. */
  lemma {:induction false} StillWritten(bars: seq<Option<Bar>>, next: nat, i: nat, was: seq<nat>, regs: seq<nat>)
    requires i < |bars| < |regs| == |was| && Unassigned(bars[i])
    requires RegsHold(regs, i, PlaceOf(bars, next, i), bars[i].value.is64)
    requires forall j :: 0 <= j < |regs| && j != i && !(j == i + 1 && bars[i].value.is64) ==> regs[j] == was[j]
    ensures Paired(bars) && Written(bars, next, i, was) ==> Written(bars, next, i + 1, regs)
  {
  }

  /** A BAR without room: it and every BAR after it stay as they were, and those before it are placed. */
  lemma {:induction false} Stopped(bars: seq<Option<Bar>>, next: nat, limit: nat, i: nat)
    requires i < |bars| && Unassigned(bars[i]) && PlaceOf(bars, next, i) + bars[i].value.size > limit && RoomFor(bars, next, limit, i)
    ensures forall j: nat :: i < j <= |bars| ==> !RoomFor(bars, next, limit, j)
    ensures forall j :: 0 <= j < i ==> Moved(bars, next, j) == Outcome(bars, next, limit, j)
  {
  }

  /**
   The place of slot `i` is the first multiple of its size from the cursor on, and its registers, whose flag bits say how wide it is, decode to
   that place: always below 4 GiB, and otherwise if and only if the BAR can hold it.
   */
  ghost predicate Decodes(bars: seq<Option<Bar>>, next: nat, limit: nat, regs: seq<nat>, i: nat)
    requires i < |bars| < |regs| && bars[i].Some?
  {
    var place, decoded := PlaceOf(bars, next, i), Decoded(regs[i], regs[i + 1], bars[i].value.is64);
    && AlignedTo(place, bars[i].value.size) && CursorAt(bars, next, i) <= place < CursorAt(bars, next, i) + bars[i].value.size
    && regs[i] == place % WORD + (if bars[i].value.is64 then 4 else 0)
    && (limit <= WORD ==> decoded == place)
    && (limit <= WORD * WORD ==> (decoded == place <==> bars[i].value.is64 || place < WORD))
  }

  /** So it is for every BAR that gets a place. */
  ghost predicate AllDecode(bars: seq<Option<Bar>>, next: nat, limit: nat, regs: seq<nat>)
    requires |bars| < |regs|
  {
    forall i :: 0 <= i < |bars| && GetsPlaced(bars, next, limit, i) ==> Decodes(bars, next, limit, regs, i)
  }

  lemma {:induction false} DecodesAll(bars: seq<Option<Bar>>, next: nat, limit: nat, n: nat, regs: seq<nat>)
    requires n <= |bars| < |regs| && (n < |bars| ==> Unassigned(bars[n]) && PlaceOf(bars, next, n) + bars[n].value.size > limit)
    ensures Sized(bars) && Written(bars, next, n, regs) ==> AllDecode(bars, next, limit, regs)
    ensures forall i :: 0 <= i < |bars| && GetsPlaced(bars, next, limit, i) ==> i < n
  {
    if Sized(bars) && Written(bars, next, n, regs) {
      forall i | 0 <= i < |bars| && GetsPlaced(bars, next, limit, i) ensures Decodes(bars, next, limit, regs, i) {
        PlacedDecodes(bars, next, limit, regs, i);
        PlacedAligned(bars, next, limit, regs, i);
      }
    }
  }

  // --- two windows on which placement goes wrong ---

  /** One 32-bit BAR of a page, unassigned, in the first slot. */
  method OneBar() returns (bars: array<Option<Bar>>, regs: array<nat>)
    ensures fresh(bars) && fresh(regs) && bars.Length == SLOTS && regs.Length == SLOTS + 1
    ensures bars[0] == Some(Bar(0, 0x1000, false)) && forall i :: 0 < i < SLOTS ==> bars[i] == None
  {
    bars := new Option<Bar>[SLOTS](_ => None);
    regs := new nat[SLOTS + 1](_ => 0);
    bars[0] := Some(Bar(0, 0x1000, false));
  }

  lemma {:induction false} OneBarPlace(bars: seq<Option<Bar>>, next: nat, limit: nat, pages: nat)
    requires |bars| == SLOTS && bars[0] == Some(Bar(0, 0x1000, false)) && forall i :: 0 < i < SLOTS ==> bars[i] == None
    requires next == pages * 0x1000 && next + 0x1000 <= limit
    ensures PlaceOf(bars, next, 0) == next && RoomFor(bars, next, limit, SLOTS) && GetsPlaced(bars, next, limit, 0)
    ensures Paired(bars) && Sized(bars)
  {
    assert CursorAt(bars, next, 0) == next;
    assert (next + 0xfff) / 0x1000 == pages;
  }

  /** A window above 4 GiB: the 32-bit BAR is placed there, and answers at another address. */
  method HighWindow() returns (bars: array<Option<Bar>>, regs: array<nat>)
    ensures bars.Length == SLOTS && regs.Length == SLOTS + 1
    ensures bars[0] == Some(Bar(WORD, 0x1000, false)) && Decoded(regs[0], regs[1], false) != WORD
  {
    var window := new BarWindow();
    var present := window.HostBridgePresent(Some((0x3000_0000, WORD, 0x1000_0000)));
    bars, regs := OneBar();
    OneBarPlace(bars[..], window.next, window.limit, 0x10_0000);
    ghost var was := bars[..];
    var ok := window.PlaceBars(bars, regs);
    assert Decodes(was, WORD, window.limit, regs[..], 0);
  }

  /** An ECAM at address 0: the windows are cached again, and two functions get the same address. */
  method CachedTwice() returns (first: array<Option<Bar>>, second: array<Option<Bar>>)
    ensures first.Length == SLOTS == second.Length
    ensures first[0] == second[0] == Some(Bar(0x1000_0000, 0x1000, false)) && first != second
  {
    var window := new BarWindow();
    var present := window.HostBridgePresent(Some((0, 0x1000_0000, 0x20_0000)));
    var regs;
    first, regs := OneBar();
    OneBarPlace(first[..], window.next, window.limit, 0x1_0000);
    var ok := window.PlaceBars(first, regs);
    present := window.HostBridgePresent(Some((0, 0x1000_0000, 0x20_0000)));
    second, regs := OneBar();
    OneBarPlace(second[..], window.next, window.limit, 0x1_0000);
    ok := window.PlaceBars(second, regs);
  }
}
