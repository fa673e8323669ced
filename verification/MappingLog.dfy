/**
 The mapping database as the kernel keeps it: a fixed registry of live spaces, and log pages in physical
 memory, chained newest first by address, with tombstones reused in place. Each operation is proved to
 do to this structure what `Revocation` says it does to the records.
 */
module MappingLog {
  import opened Basics
  import opened Revocation
  import opened RevocationRuns

  /** One page of mapping records. `next` is the physical address of the older page, 0 at the end. */
  datatype LogPage = LogPage(next: nat, used: nat, entries: seq<Entry>)

  datatype SpaceLog = SpaceLog(root: nat, region: nat, head: nat)

  predicate PageOk(page: LogPage) {
    |page.entries| == LOG_ENTRIES && 0 < page.used <= LOG_ENTRIES
  }

  /** The pages from `head` on are those at the addresses of `chain`. */
  ghost predicate IsChain(memory: map<nat, LogPage>, head: nat, chain: seq<nat>)
    decreases |chain|
  {
    if chain == [] then head == 0
    else head != 0 && head == chain[0] && head in memory && PageOk(memory[head]) && IsChain(memory, memory[head].next, chain[1..])
  }

  function Written(page: LogPage): Page
    requires page.used <= |page.entries|
  {
    page.entries[..page.used]
  }

  predicate AllOk(memory: map<nat, LogPage>, chain: seq<nat>) {
    forall a :: 0 <= a < |chain| ==> IsPage(memory, chain[a])
  }

  predicate IsPage(memory: map<nat, LogPage>, p: nat) {
    p != 0 && p in memory && PageOk(memory[p])
  }

  function WrittenAt(memory: map<nat, LogPage>, p: nat): Page {
    if IsPage(memory, p) then Written(memory[p]) else []
  }

  /** The log a chain holds. */
  ghost function PagesOf(memory: map<nat, LogPage>, chain: seq<nat>): (r: seq<Page>)
    ensures |r| == |chain|
    ensures forall a :: 0 <= a < |chain| ==> r[a] == WrittenAt(memory, chain[a])
  {
    seq(|chain|, a requires 0 <= a < |chain| => WrittenAt(memory, chain[a]))
  }

  lemma {:induction false} ChainPages(memory: map<nat, LogPage>, head: nat, chain: seq<nat>, a: nat)
    requires IsChain(memory, head, chain) && a <= |chain|
    ensures AllOk(memory, chain)
    ensures a == 0 ==> head == if chain == [] then 0 else chain[0]
    ensures a > 0 ==> memory[chain[a - 1]].next == if a < |chain| then chain[a] else 0
    decreases |chain|
  {
    if chain != [] {
      ChainPages(memory, memory[head].next, chain[1..], if a == 0 then 0 else a - 1);
      forall b | 0 <= b < |chain| ensures IsPage(memory, chain[b]) {
        assert b == 0 || chain[b] == chain[1..][b - 1];
      }
    }
  }

  /** A page rewritten in place, with the same link, leaves every chain a chain. */
  lemma {:induction false} ChainKept(memory: map<nat, LogPage>, p: nat, page: LogPage, head: nat, chain: seq<nat>)
    requires IsChain(memory, head, chain) && p in memory && PageOk(page) && page.next == memory[p].next
    ensures IsChain(memory[p := page], head, chain)
    decreases |chain|
  {
    if chain != [] {
      ChainKept(memory, p, page, memory[head].next, chain[1..]);
    }
  }

  lemma {:induction false} ChainAdds(memory: map<nat, LogPage>, p: nat, page: LogPage, head: nat, chain: seq<nat>)
    requires IsChain(memory, head, chain) && p !in chain
    ensures IsChain(memory[p := page], head, chain)
    decreases |chain|
  {
    if chain != [] {
      ChainAdds(memory, p, page, memory[head].next, chain[1..]);
    }
  }

  // --- where a record goes ---

  /** The first tombstone of a page is the one reused. */
  lemma {:induction false} FilledAt(page: Page, e: Entry, j: nat)
    requires j < |page| && page[j].phys == 0 && forall i :: 0 <= i < j ==> page[i].phys != 0
    ensures HasHole(page) && Filled(page, e) == page[j := e]
  {
    if j > 0 {
      FilledAt(page[1..], e, j - 1);
    }
  }

  /** The first page with room is the one written to. */
  lemma {:induction false} PlacedAt(pages: seq<Page>, e: Entry, a: nat)
    requires a <= |pages| && forall b :: 0 <= b < a ==> !HasHole(pages[b]) && |pages[b]| >= LOG_ENTRIES
    ensures a == |pages| ==> Placed(pages, e).None?
    ensures a < |pages| && HasHole(pages[a]) ==> Placed(pages, e) == Some(pages[a := Filled(pages[a], e)])
    ensures a < |pages| && !HasHole(pages[a]) && |pages[a]| < LOG_ENTRIES ==> Placed(pages, e) == Some(pages[a := pages[a] + [e]])
  {
    if a > 0 {
      forall b | 0 <= b < a - 1 ensures !HasHole(pages[1..][b]) && |pages[1..][b]| >= LOG_ENTRIES {
        assert pages[1..][b] == pages[b + 1];
      }
      PlacedAt(pages[1..], e, a - 1);
      if a < |pages| {
        assert pages[1..][a - 1] == pages[a];
        var x := if HasHole(pages[a]) then Filled(pages[a], e) else pages[a] + [e];
        assert [pages[0]] + pages[1..][a - 1 := x] == pages[a := x];
      }
    } else if pages != [] {
      var x := if HasHole(pages[0]) then Filled(pages[0], e) else pages[0] + [e];
      assert [x] + pages[1..] == pages[0 := x];
    }
  }

  /** The addresses of the first `n` entries of a page that record `phys`. */
  function VasIn(page: Page, phys: nat, n: nat): set<nat>
    requires n <= |page|
  {
    set j | 0 <= j < n && page[j].phys == phys :: page[j].va
  }

  /** The page tables with some addresses of one space unmapped. */
  function Unmapped(tables: map<nat, map<nat, nat>>, root: nat, vas: set<nat>): map<nat, map<nat, nat>> {
    if root in tables then tables[root := tables[root] - vas] else tables
  }

  // --- the whole structure, as values ---

  /** No page is in two places: the log pages of all spaces and the pages still to be bought are all different. */
  ghost predicate Disjoint(chains: seq<seq<nat>>, budgets: map<nat, seq<nat>>) {
    && (forall i, a, j, b :: 0 <= i < |chains| && 0 <= j < |chains| && 0 <= a < |chains[i]| && 0 <= b < |chains[j]| && !(i == j && a == b) ==>
          chains[i][a] != chains[j][b])
    && (forall r, m :: r in budgets && 0 <= m < |budgets[r]| ==> budgets[r][m] != 0 && NotLogged(chains, budgets[r][m]))
    && (forall r, m, q, n :: r in budgets && q in budgets && 0 <= m < |budgets[r]| && 0 <= n < |budgets[q]| && !(r == q && m == n) ==>
          budgets[r][m] != budgets[q][n])
  }

  ghost predicate NotLogged(chains: seq<seq<nat>>, p: nat) {
    forall i, a :: 0 <= i < |chains| && 0 <= a < |chains[i]| ==> chains[i][a] != p
  }

  ghost predicate SlotChained(memory: map<nat, LogPage>, slot: Option<SpaceLog>, chain: seq<nat>) {
    if slot.Some? then IsChain(memory, slot.value.head, chain) else chain == []
  }

  ghost predicate Chained(slots: seq<Option<SpaceLog>>, memory: map<nat, LogPage>, chains: seq<seq<nat>>) {
    |slots| == |chains| && forall i :: 0 <= i < |slots| ==> SlotChained(memory, slots[i], chains[i])
  }

  ghost function SpaceIn(memory: map<nat, LogPage>, slot: Option<SpaceLog>, chain: seq<nat>): Option<Space> {
    if slot.None? then None else Some(Space(slot.value.root, slot.value.region, PagesOf(memory, chain)))
  }

  ghost function SpacesIn(slots: seq<Option<SpaceLog>>, memory: map<nat, LogPage>, chains: seq<seq<nat>>): (r: seq<Option<Space>>)
    requires |slots| == |chains|
    ensures |r| == |slots|
    ensures forall i :: 0 <= i < |slots| ==> r[i] == SpaceIn(memory, slots[i], chains[i])
  {
    seq(|slots|, i requires 0 <= i < |slots| => SpaceIn(memory, slots[i], chains[i]))
  }

  /** A page rewritten in place changes one page of one log. */
  lemma {:induction false} PageRewritten(slots: seq<Option<SpaceLog>>, memory: map<nat, LogPage>, chains: seq<seq<nat>>, budgets: map<nat, seq<nat>>,
                      i: nat, a: nat, page: LogPage)
    requires Chained(slots, memory, chains) && Disjoint(chains, budgets)
    requires i < |slots| && slots[i].Some? && a < |chains[i]| && PageOk(page) && chains[i][a] in memory && page.next == memory[chains[i][a]].next
    ensures var memory' := memory[chains[i][a] := page];
            var spaces := SpacesIn(slots, memory, chains);
            && Chained(slots, memory', chains)
            && SpacesIn(slots, memory', chains) ==
               spaces[i := Some(spaces[i].value.(pages := spaces[i].value.pages[a := Written(page)]))]
  {
    var p := chains[i][a];
    var memory' := memory[p := page];
    ChainPages(memory, slots[i].value.head, chains[i], 0);
    forall j | 0 <= j < |slots| ensures SlotChained(memory', slots[j], chains[j]) {
      if slots[j].Some? {
        ChainKept(memory, p, page, slots[j].value.head, chains[j]);
      }
    }
    forall j | 0 <= j < |slots| && j != i ensures PagesOf(memory', chains[j]) == PagesOf(memory, chains[j]) {
    }
    assert PagesOf(memory', chains[i]) == PagesOf(memory, chains[i])[a := Written(page)];
    var spaces := SpacesIn(slots, memory, chains);
    assert SpacesIn(slots, memory', chains) == spaces[i := Some(spaces[i].value.(pages := spaces[i].value.pages[a := Written(page)]))];
  }

  /** A bought page becomes the new head of one log. */
  lemma {:induction false} PagePushed(slots: seq<Option<SpaceLog>>, memory: map<nat, LogPage>, chains: seq<seq<nat>>, budgets: map<nat, seq<nat>>,
                   i: nat, region: nat, page: LogPage)
    requires Chained(slots, memory, chains) && Disjoint(chains, budgets)
    requires i < |slots| && slots[i].Some? && region in budgets && budgets[region] != []
    requires PageOk(page) && page.next == slots[i].value.head
    ensures var p := budgets[region][0];
            var slots', memory' := slots[i := Some(slots[i].value.(head := p))], memory[p := page];
            var chains', budgets' := chains[i := [p] + chains[i]], budgets[region := budgets[region][1..]];
            var spaces := SpacesIn(slots, memory, chains);
            && Chained(slots', memory', chains') && Disjoint(chains', budgets')
            && SpacesIn(slots', memory', chains') ==
               spaces[i := Some(spaces[i].value.(pages := [Written(page)] + spaces[i].value.pages))]
  {
    var p := budgets[region][0];
    var slots', memory' := slots[i := Some(slots[i].value.(head := p))], memory[p := page];
    var chains', budgets' := chains[i := [p] + chains[i]], budgets[region := budgets[region][1..]];
    PushDisjoint(chains, budgets, i, region);
    forall j | 0 <= j < |slots| ensures SlotChained(memory', slots'[j], chains'[j]) && PagesOf(memory', chains[j]) == PagesOf(memory, chains[j]) {
      assert p !in chains[j];
      if slots[j].Some? {
        ChainAdds(memory, p, page, slots[j].value.head, chains[j]);
        assert chains'[i][1..] == chains[i];
      }
    }
    assert PagesOf(memory', chains'[i]) == [Written(page)] + PagesOf(memory', chains[i]);
    var spaces := SpacesIn(slots, memory, chains);
    assert SpacesIn(slots', memory', chains') == spaces[i := Some(spaces[i].value.(pages := [Written(page)] + spaces[i].value.pages))];
  }

  lemma {:induction false} PushDisjoint(chains: seq<seq<nat>>, budgets: map<nat, seq<nat>>, i: nat, region: nat)
    requires Disjoint(chains, budgets) && i < |chains| && region in budgets && budgets[region] != []
    ensures Disjoint(chains[i := [budgets[region][0]] + chains[i]], budgets[region := budgets[region][1..]])
  {
    var p := budgets[region][0];
    var chains', budgets' := chains[i := [p] + chains[i]], budgets[region := budgets[region][1..]];
    assert NotLogged(chains, p);
    forall j, a | 0 <= j < |chains'| && 0 <= a < |chains'[j]|
      ensures chains'[j][a] == if j == i then (if a == 0 then p else chains[i][a - 1]) else chains[j][a]
    {
    }
    forall r, m | r in budgets' && 0 <= m < |budgets'[r]|
      ensures budgets'[r][m] == budgets[r][if r == region then m + 1 else m] && budgets'[r][m] != p && NotLogged(chains', budgets'[r][m])
    {
      var m' := if r == region then m + 1 else m;
      assert NotLogged(chains, budgets[r][m']);
    }
  }

  lemma {:induction false} FreeSlotIs(spaces: seq<Option<Space>>, i: nat)
    requires i <= |spaces| && (forall j :: 0 <= j < i ==> spaces[j].Some?) && (i < |spaces| ==> spaces[i].None?)
    ensures FreeSlot(spaces) == i
  {
    if i > 0 {
      FreeSlotIs(spaces[1..], i - 1);
    }
  }

  lemma {:induction false} SlotOfIs(spaces: seq<Option<Space>>, root: nat, i: nat)
    requires i <= |spaces| && (i < |spaces| ==> spaces[i].Some? && spaces[i].value.root == root)
    requires forall j :: 0 <= j < i ==> spaces[j].None? || spaces[j].value.root != root
    ensures SlotOf(spaces, root) == i
  {
  }

  /** The log with its first `n` pages swept. */
  ghost function SweptPages(pages: seq<Page>, phys: nat, n: nat): (r: seq<Page>)
    ensures |r| == |pages|
    ensures forall a :: 0 <= a < |pages| ==> r[a] == if a < n then ErasedPage(pages[a], phys) else pages[a]
  {
    seq(|pages|, a requires 0 <= a < |pages| => if a < n then ErasedPage(pages[a], phys) else pages[a])
  }

  /** The registry with its first `n` spaces swept. */
  ghost function SweptSpaces(spaces: seq<Option<Space>>, phys: nat, spare: nat, n: nat): (r: seq<Option<Space>>)
    ensures |r| == |spaces|
    ensures forall i :: 0 <= i < |spaces| ==> r[i] == if i < n then ErasedSlot(spaces[i], phys, spare) else spaces[i]
  {
    seq(|spaces|, i requires 0 <= i < |spaces| => if i < n then ErasedSlot(spaces[i], phys, spare) else spaces[i])
  }

  class MappingDb {
    const spaces: array<Option<SpaceLog>>
    var memory: map<nat, LogPage>
    var budgets: map<nat, seq<nat>>
    var tables: map<nat, map<nat, nat>>
    var frameCaps: set<(nat, nat)>
    var deviceCaps: set<(nat, nat)>

    /** The addresses of each space's log pages, newest first. */
    ghost var chains: seq<seq<nat>>

    ghost predicate Valid()
      reads this, spaces
    {
      && spaces.Length == MAX_SPACES
      && Chained(spaces[..], memory, chains)
      && Disjoint(chains, budgets)
    }

    /** The records this structure holds. */
    ghost function Abs(): Kernel
      requires Valid()
      reads this, spaces
    {
      Kernel(SpacesIn(spaces[..], memory, chains), map r | r in budgets :: |budgets[r]|, tables, frameCaps, deviceCaps)
    }

    /** No space yet; each region with the pages it has left to retype. */
    constructor (budgets: map<nat, seq<nat>>)
      requires Disjoint([], budgets)
      ensures Valid() && fresh(spaces) && this.budgets == budgets && RevocationRuns.Inv(Abs()) && Abs().tables == map[]
    {
      spaces := new Option<SpaceLog>[MAX_SPACES](_ => None);
      memory, tables, frameCaps, deviceCaps := map[], map[], {}, {};
      this.budgets := budgets;
      chains := seq(MAX_SPACES, _ => []);
    }

    method RegisterSpace(root: nat, region: nat) returns (ok: bool)
      requires Valid()
      modifies spaces
      ensures Valid() && (Abs(), ok) == Revocation.RegisterSpace(old(Abs()), root, region)
      ensures Enters(old(Abs()), root, region, Abs(), ok)
    {
      ghost var was := Abs();
      RegisterIs(was, root, region);
      var i := 0;
      while i < MAX_SPACES && spaces[i].Some?
        invariant i <= MAX_SPACES && forall j :: 0 <= j < i ==> spaces[j].Some?
      {
        i := i + 1;
      }
      assert i < MAX_SPACES ==> was.spaces[i].None?;
      FreeSlotIs(was.spaces, i);
      if i == MAX_SPACES {
        return false;
      }
      ghost var slots := spaces[..];
      assert SlotChained(memory, slots[i], chains[i]);
      spaces[i] := Some(SpaceLog(root, region, 0));
      assert spaces[..] == slots[i := Some(SpaceLog(root, region, 0))];
      assert SpaceIn(memory, spaces[i], chains[i]) == Some(Space(root, region, []));
      assert Abs().spaces == was.spaces[i := Some(Space(root, region, []))];
      return true;
    }

    method ForgetRoot(root: nat)
      requires Valid()
      modifies this`chains, spaces
      ensures Valid() && Abs() == Revocation.ForgetRoot(old(Abs()), root)
      ensures Forgets(old(Abs()), root, Abs())
    {
      ghost var was := Abs();
      ForgetIs(was, root);
      var i := 0;
      while i < MAX_SPACES
        invariant i <= MAX_SPACES && Valid()
        invariant forall j :: 0 <= j < MAX_SPACES ==> Abs().spaces[j] == if j < i then ForgetSlot(was.spaces[j], root) else was.spaces[j]
      {
        if spaces[i].Some? && spaces[i].value.root == root {
          ForgetOne(i);
        }
        i := i + 1;
      }
      assert Abs().spaces == Revocation.ForgetRoot(was, root).spaces;
    }

    method ForgetOne(i: nat)
      requires Valid() && i < MAX_SPACES
      modifies this`chains, spaces
      ensures Valid() && Abs() == old(Abs()).(spaces := old(Abs()).spaces[i := None])
    {
      ghost var was, slots := Abs(), spaces[..];
      spaces[i] := None;
      chains := chains[i := []];
      assert spaces[..] == slots[i := None];
      forall j | 0 <= j < MAX_SPACES ensures SlotChained(memory, spaces[j], chains[j]) {
        assert j != i ==> SlotChained(memory, slots[j], old(chains)[j]);
      }
      forall r, m | r in budgets && 0 <= m < |budgets[r]| ensures NotLogged(chains, budgets[r][m]) {
        assert NotLogged(old(chains), budgets[r][m]);
      }
      assert Abs().spaces == was.spaces[i := None];
    }

    /** Rewrite one log page in place. */
    method Rewrite(ghost i: nat, ghost a: nat, p: nat, page: LogPage)
      requires Valid() && i < MAX_SPACES && spaces[i].Some? && a < |chains[i]| && chains[i][a] == p
      requires PageOk(page) && p in memory && page.next == memory[p].next
      modifies this`memory
      ensures Valid() && memory == old(memory)[p := page]
      ensures var k := old(Abs()); var space := k.spaces[i].value;
              Abs() == k.(spaces := k.spaces[i := Some(space.(pages := space.pages[a := Written(page)]))])
    {
      PageRewritten(spaces[..], memory, chains, budgets, i, a, page);
      memory := memory[p := page];
    }

    /** The first tombstone of the log, or headroom in the first page that has any: page `p`, entry `j`. None is `p == 0`. */
    method FindRoom(i: nat) returns (p: nat, j: nat, ghost a: nat)
      requires Valid() && i < MAX_SPACES && spaces[i].Some?
      ensures a <= |chains[i]| && p == (if a < |chains[i]| then chains[i][a] else 0) && (p == 0 <==> a == |chains[i]|)
      ensures var pages := Abs().spaces[i].value.pages; forall b :: 0 <= b < a ==> !HasHole(pages[b]) && |pages[b]| >= LOG_ENTRIES
      ensures p != 0 ==> IsPage(memory, p) && j <= memory[p].used && j < LOG_ENTRIES
      ensures p != 0 ==> forall b :: 0 <= b < j ==> memory[p].entries[b].phys != 0
      ensures p != 0 && j < memory[p].used ==> memory[p].entries[j].phys == 0
    {
      ghost var chain, pages := chains[i], Abs().spaces[i].value.pages;
      assert SlotChained(memory, spaces[..][i], chain);
      p, j, a := spaces[i].value.head, 0, 0;
      ChainPages(memory, p, chain, 0);
      while p != 0
        invariant a <= |chain| && p == if a < |chain| then chain[a] else 0
        invariant forall b :: 0 <= b < a ==> !HasHole(pages[b]) && |pages[b]| >= LOG_ENTRIES
        decreases |chain| - a
      {
        assert IsPage(memory, chain[a]);
        var page := memory[p];
        assert pages[a] == Written(page);
        j := 0;
        while j < page.used && page.entries[j].phys != 0
          invariant j <= page.used && forall b :: 0 <= b < j ==> page.entries[b].phys != 0
        {
          j := j + 1;
        }
        if j < LOG_ENTRIES {
          return;
        }
        assert !HasHole(pages[a]);
        ChainPages(memory, spaces[i].value.head, chain, a + 1);
        p, a := page.next, a + 1;
      }
    }

    method RecordMapping(phys: nat, root: nat, va: nat) returns (ok: bool)
      requires Valid()
      modifies this`memory, this`budgets, this`chains, spaces
      ensures Valid() && (Abs(), ok) == Revocation.RecordMapping(old(Abs()), phys, root, va)
    {
      ghost var was := Abs();
      var i := 0;
      while i < MAX_SPACES && (spaces[i].None? || spaces[i].value.root != root)
        invariant i <= MAX_SPACES && forall j :: 0 <= j < i ==> was.spaces[j].None? || was.spaces[j].value.root != root
      {
        i := i + 1;
      }
      SlotOfIs(was.spaces, root, i);
      if i == MAX_SPACES {
        return false;
      }
      var p, j, a := FindRoom(i);
      PlacedAt(was.spaces[i].value.pages, Entry(phys, va), a);
      if p != 0 {
        WriteEntry(i, a, p, j, Entry(phys, va));
        return true;
      }
      ok := BuyPage(i, Entry(phys, va));
    }

    /** Write one record over a tombstone, or at the high-water mark. */
    method WriteEntry(ghost i: nat, ghost a: nat, p: nat, j: nat, e: Entry)
      requires Valid() && i < MAX_SPACES && spaces[i].Some? && a < |chains[i]| && chains[i][a] == p
      requires IsPage(memory, p) && j <= memory[p].used && j < LOG_ENTRIES
      requires forall b :: 0 <= b < j ==> memory[p].entries[b].phys != 0
      requires j < memory[p].used ==> memory[p].entries[j].phys == 0
      modifies this`memory
      ensures Valid()
      ensures var k := old(Abs()); var space := k.spaces[i].value;
              var page := space.pages[a];
              && (!HasHole(page) ==> |page| < LOG_ENTRIES)
              && Abs() == k.(spaces := k.spaces[i := Some(space.(pages :=
                               space.pages[a := if HasHole(page) then Filled(page, e) else page + [e]]))])
    {
      var page := memory[p];
      ghost var written := Written(page);
      if j < page.used {
        FilledAt(written, e, j);
        var filled := page.(entries := page.entries[j := e]);
        assert Written(filled) == written[j := e];
        Rewrite(i, a, p, filled);
      } else {
        assert !HasHole(written);
        var longer := page.(used := page.used + 1, entries := page.entries[page.used := e]);
        assert Written(longer) == written + [e];
        Rewrite(i, a, p, longer);
      }
    }

    /** A fresh page from the space's own budget becomes the new head, or there is none to be had. */
    method BuyPage(i: nat, e: Entry) returns (ok: bool)
      requires Valid() && i < MAX_SPACES && spaces[i].Some?
      modifies this`memory, this`budgets, this`chains, spaces
      ensures Valid()
      ensures var k := old(Abs()); var space := k.spaces[i].value;
              if Budget(k, space.region) == 0 then !ok && Abs() == k
              else ok && Abs() == k.(spaces := k.spaces[i := Some(space.(pages := [[e]] + space.pages))],
                                     budgets := k.budgets[space.region := k.budgets[space.region] - 1])
    {
      ghost var was := Abs();
      var space := spaces[i].value;
      if space.region !in budgets || budgets[space.region] == [] {
        return false;
      }
      var bought := budgets[space.region][0];
      var page := LogPage(space.head, 1, [e] + seq(LOG_ENTRIES - 1, _ => Entry(0, 0)));
      assert Written(page) == [e];
      PagePushed(spaces[..], memory, chains, budgets, i, space.region, page);
      ghost var slots := spaces[..];
      budgets := budgets[space.region := budgets[space.region][1..]];
      memory := memory[bought := page];
      spaces[i] := Some(space.(head := bought));
      chains := chains[i := [bought] + chains[i]];
      assert spaces[..] == slots[i := Some(space.(head := bought))];
      return true;
    }

    /** One page: unmap and tombstone every record of `phys`. */
    method SweepPage(ghost i: nat, ghost a: nat, p: nat, phys: nat, root: nat)
      requires Valid() && i < MAX_SPACES && spaces[i].Some? && a < |chains[i]| && chains[i][a] == p && IsPage(memory, p)
      modifies this`memory, this`tables
      ensures Valid() && IsPage(memory, p) && memory == old(memory)[p := memory[p]] && memory[p].next == old(memory)[p].next
      ensures var k := old(Abs()); var space := k.spaces[i].value;
              Abs() == k.(spaces := k.spaces[i := Some(space.(pages := space.pages[a := ErasedPage(space.pages[a], phys)]))],
                          tables := Unmapped(k.tables, root, VasIn(space.pages[a], phys, |space.pages[a]|)))
    {
      var page := memory[p];
      ghost var was, written := tables, Written(page);
      var entries, j := page.entries, 0;
      assert VasIn(written, phys, 0) == {};
      UnmappedNone(was, root);
      while j < page.used
        invariant j <= page.used && |entries| == LOG_ENTRIES
        invariant forall b :: 0 <= b < LOG_ENTRIES ==>
                    entries[b] == if b < j && page.entries[b].phys == phys then Entry(0, page.entries[b].va) else page.entries[b]
        invariant tables == Unmapped(was, root, VasIn(written, phys, j))
        invariant memory == old(memory)
      {
        VasNext(written, phys, j);
        assert entries[j] == written[j];
        if entries[j].phys == phys {
          UnmappedTwice(was, root, VasIn(written, phys, j), {entries[j].va});
          tables := Unmapped(tables, root, {entries[j].va});
          entries := entries[j := Entry(0, entries[j].va)];
        }
        j := j + 1;
      }
      var swept := page.(entries := entries);
      assert Written(swept) == ErasedPage(written, phys);
      Rewrite(i, a, p, swept);
    }

    /** One space: its whole chain, newest page first. */
    method SweepSpace(i: nat, phys: nat)
      requires Valid() && i < MAX_SPACES && spaces[i].Some?
      modifies this`memory, this`tables
      ensures Valid()
      ensures var k := old(Abs()); var space := k.spaces[i].value;
              Abs() == k.(spaces := k.spaces[i := Some(space.(pages := Erased(space.pages, phys)))],
                          tables := Unmapped(k.tables, space.root, VasOf(space.pages, phys)))
    {
      ghost var was := Abs();
      ghost var chain, pages := chains[i], was.spaces[i].value.pages;
      assert SlotChained(memory, spaces[..][i], chain);
      var root, p := spaces[i].value.root, spaces[i].value.head;
      ghost var a := 0;
      ChainPages(memory, p, chain, 0);
      SweptNone(was, i, phys);
      while p != 0
        invariant Valid() && a <= |chain| && p == if a < |chain| then chain[a] else 0
        invariant Abs() == SweptTo(was, i, phys, a)
        decreases |chain| - a
      {
        assert SlotChained(memory, spaces[..][i], chain);
        ChainPages(memory, spaces[i].value.head, chain, a + 1);
        assert IsPage(memory, chain[a]);
        var next := memory[p].next;
        SweptNext(was, i, phys, a);
        SweepPage(i, a, p, phys, root);
        p, a := next, a + 1;
      }
      ChainEnds(memory, spaces[i].value.head, chain, a);
      SweptAll(was, i, phys);
    }

    method UnmapEverywhere(phys: nat, spare: nat)
      requires Valid()
      modifies this`memory, this`tables
      ensures Valid() && Abs() == Revocation.UnmapEverywhere(old(Abs()), phys, spare)
    {
      ghost var was := Abs();
      var i := 0;
      SpacesNone(was, phys, spare);
      while i < MAX_SPACES
        invariant i <= MAX_SPACES && Valid() && Abs() == SweptUpTo(was, phys, spare, i)
      {
        SpacesNext(was, phys, spare, i);
        if spaces[i].Some? && spaces[i].value.root != spare {
          SweepSpace(i, phys);
        }
        i := i + 1;
      }
      SpacesAll(was, phys, spare);
    }

    method RevokeFrame(phys: nat)
      requires Valid()
      modifies this`memory, this`tables, this`frameCaps
      ensures Valid() && Abs() == Revocation.RevokeFrame(old(Abs()), phys)
    {
      frameCaps := set c | c in frameCaps && c.1 != phys;
      UnmapEverywhere(phys, 0);
    }

    method RevokeDeviceFromOthers(phys: nat, thread: nat, root: nat)
      requires Valid()
      modifies this`memory, this`tables, this`deviceCaps
      ensures Valid() && Abs() == RevokeDevice(old(Abs()), phys, thread, root)
    {
      deviceCaps := set c | c in deviceCaps && (c.1 != phys || c.0 == thread);
      UnmapEverywhere(phys, root);
    }

    /** The scan of one pass. */
    method FindVictim(base: nat, size: nat) returns (victim: Option<nat>)
      requires Valid()
      ensures victim == Victim(Abs().spaces, base, size)
    {
      ghost var held := Abs().spaces;
      assert held[0..] == held;
      var i := 0;
      while i < MAX_SPACES
        invariant i <= MAX_SPACES && Victim(held, base, size) == Victim(held[i..], base, size)
      {
        assert held[i..][0] == held[i] && held[i..][1..] == held[i + 1..];
        if spaces[i].Some? {
          victim := FindVictimIn(i, base, size);
          if victim.Some? {
            return;
          }
        }
        i := i + 1;
      }
      return None;
    }

    method FindVictimIn(i: nat, base: nat, size: nat) returns (victim: Option<nat>)
      requires Valid() && i < MAX_SPACES && spaces[i].Some?
      ensures victim == VictimOf(Abs().spaces[i].value.pages, base, size)
    {
      ghost var chain, pages := chains[i], Abs().spaces[i].value.pages;
      assert SlotChained(memory, spaces[..][i], chain);
      var p := spaces[i].value.head;
      ghost var a := 0;
      ChainPages(memory, p, chain, 0);
      assert pages[0..] == pages;
      while p != 0
        invariant a <= |chain| && p == if a < |chain| then chain[a] else 0
        invariant VictimOf(pages, base, size) == VictimOf(pages[a..], base, size)
        decreases |chain| - a
      {
        assert IsPage(memory, chain[a]);
        var page := memory[p];
        assert pages[a..][0] == pages[a] == Written(page) && pages[a..][1..] == pages[a + 1..];
        victim := ScanPage(page, base, size);
        if victim.Some? {
          return;
        }
        ChainPages(memory, spaces[i].value.head, chain, a + 1);
        p, a := page.next, a + 1;
      }
      ChainEnds(memory, spaces[i].value.head, chain, a);
      return None;
    }

    /** One page per pass, until a pass finds none. */
    method RevokeRegion(base: nat, size: nat)
      requires Valid() && RevocationRuns.Inv(Abs())
      requires base > 0 || Victim(Abs().spaces, base, size).None?
      modifies this`memory, this`tables, this`frameCaps
      ensures Valid() && RevocationRuns.Inv(Abs())
      ensures forall root, va, p :: Maps(Abs(), root, va, p) <==> Maps(old(Abs()), root, va, p) && !InRange(p, base, size)
      ensures forall c :: c in Abs().frameCaps <==> c in old(Abs()).frameCaps && !(InRange(c.1, base, size) && Mapped(old(Abs()), c.1))
    {
      ghost var was := Abs();
      var victim := FindVictim(base, size);
      if victim.None? {
        NothingMappedInRange(was, base, size);
        return;
      }
      RootsNonzero(was);
      while victim.Some?
        invariant Valid() && victim == Victim(Abs().spaces, base, size)
        invariant forall j :: 0 <= j < |Abs().spaces| && Abs().spaces[j].Some? ==> Abs().spaces[j].value.root != 0
        invariant RevokeRange(Abs(), base, size) == RevokeRange(was, base, size)
        decreases Count(Abs().spaces, base, size)
      {
        ghost var before := Abs();
        PassShrinks(before.spaces, base, size, victim.value);
        RevokeFrame(victim.value);
        assert Abs().spaces == ErasedAll(before.spaces, victim.value, 0);
        victim := FindVictim(base, size);
      }
      forall root, va, p, c: (nat, nat)
        ensures Maps(Abs(), root, va, p) <==> Maps(was, root, va, p) && !InRange(p, base, size)
        ensures c in Abs().frameCaps <==> c in was.frameCaps && !(InRange(c.1, base, size) && Mapped(was, c.1))
      {
        RangeIsRevoked(was, base, size, root, va, p, c);
      }
      RangeIsRevoked(was, base, size, 0, 0, 0, (0, 0));
    }
  }

  method ScanPage(page: LogPage, base: nat, size: nat) returns (victim: Option<nat>)
    requires PageOk(page)
    ensures victim == VictimIn(Written(page), base, size)
  {
    ghost var written := Written(page);
    assert written[0..] == written;
    var j := 0;
    while j < page.used
      invariant j <= page.used && VictimIn(written, base, size) == VictimIn(written[j..], base, size)
    {
      assert written[j..][0] == page.entries[j] && written[j..][1..] == written[j + 1..];
      if InRange(page.entries[j].phys, base, size) {
        return Some(page.entries[j].phys);
      }
      j := j + 1;
    }
    return None;
  }

  /** The records with the first `n` spaces swept. */
  ghost function SweptUpTo(k: Kernel, phys: nat, spare: nat, n: nat): Kernel
    requires n <= |k.spaces|
  {
    k.(spaces := SweptSpaces(k.spaces, phys, spare, n),
       tables := map root | root in k.tables :: k.tables[root] - Swept(k.spaces[..n], phys, spare, root))
  }

  lemma {:induction false} SpacesNone(k: Kernel, phys: nat, spare: nat)
    ensures SweptUpTo(k, phys, spare, 0) == k
  {
    assert SweptSpaces(k.spaces, phys, spare, 0) == k.spaces;
    var tables := SweptUpTo(k, phys, spare, 0).tables;
    forall root | root in k.tables ensures tables[root] == k.tables[root] {
      assert Swept(k.spaces[..0], phys, spare, root) == {};
    }
  }

  lemma {:induction false} SpacesAll(k: Kernel, phys: nat, spare: nat)
    ensures SweptUpTo(k, phys, spare, |k.spaces|) == Revocation.UnmapEverywhere(k, phys, spare)
  {
    assert k.spaces[..|k.spaces|] == k.spaces;
    assert SweptSpaces(k.spaces, phys, spare, |k.spaces|) == Revocation.UnmapEverywhere(k, phys, spare).spaces;
  }

  /** The next space of the sweep: its own log and its own table, if it is not spared. */
  lemma {:induction false} SpacesNext(k: Kernel, phys: nat, spare: nat, n: nat)
    requires n < |k.spaces|
    ensures var part, o := SweptUpTo(k, phys, spare, n), k.spaces[n];
            && part.spaces[n] == o
            && SweptUpTo(k, phys, spare, n + 1) ==
               if o.Some? && o.value.root != spare
               then part.(spaces := part.spaces[n := Some(o.value.(pages := Erased(o.value.pages, phys)))],
                          tables := Unmapped(part.tables, o.value.root, VasOf(o.value.pages, phys)))
               else part
  {
    var part, o, more := SweptUpTo(k, phys, spare, n), k.spaces[n], SweptUpTo(k, phys, spare, n + 1);
    assert more.spaces == part.spaces[n := ErasedSlot(o, phys, spare)];
    forall root | root in k.tables
      ensures more.tables[root] == if o.Some? && o.value.root == root && root != spare then part.tables[root] - VasOf(o.value.pages, phys) else part.tables[root]
    {
      var was := Swept(k.spaces[..n], phys, spare, root);
      SweptOneMore(k.spaces, phys, spare, root, n);
      if o.Some? && o.value.root == root && root != spare {
        assert k.tables[root] - (was + VasOf(o.value.pages, phys)) == k.tables[root] - was - VasOf(o.value.pages, phys);
      } else {
        assert was + {} == was;
      }
    }
    if o.Some? && o.value.root != spare {
      assert more.tables == Unmapped(part.tables, o.value.root, VasOf(o.value.pages, phys));
    } else {
      assert more.tables == part.tables;
      assert more.spaces == part.spaces;
    }
  }

  lemma {:induction false} SweptOneMore(spaces: seq<Option<Space>>, phys: nat, spare: nat, root: nat, n: nat)
    requires n < |spaces|
    ensures Swept(spaces[..n + 1], phys, spare, root) == Swept(spaces[..n], phys, spare, root) +
            if spaces[n].Some? && spaces[n].value.root == root && root != spare then VasOf(spaces[n].value.pages, phys) else {}
  {
    var longer, shorter := spaces[..n + 1], spaces[..n];
    forall va | va in Swept(shorter, phys, spare, root) ensures va in Swept(longer, phys, spare, root) {
      var i :| 0 <= i < |shorter| && shorter[i].Some? && shorter[i].value.root == root && root != spare && va in VasOf(shorter[i].value.pages, phys);
      assert longer[i] == shorter[i];
    }
    forall va | va in Swept(longer, phys, spare, root)
      ensures va in Swept(shorter, phys, spare, root) || (spaces[n].Some? && spaces[n].value.root == root && root != spare && va in VasOf(spaces[n].value.pages, phys))
    {
      var i :| 0 <= i < |longer| && longer[i].Some? && longer[i].value.root == root && root != spare && va in VasOf(longer[i].value.pages, phys);
      assert i < n ==> shorter[i] == longer[i];
    }
    assert longer[n] == spaces[n];
  }

  lemma {:induction false} VasNext(page: Page, phys: nat, j: nat)
    requires j < |page|
    ensures page[j].phys == phys ==> VasIn(page, phys, j + 1) == VasIn(page, phys, j) + {page[j].va}
    ensures page[j].phys != phys ==> VasIn(page, phys, j + 1) == VasIn(page, phys, j)
  {
  }

  lemma {:induction false} UnmappedNone(tables: map<nat, map<nat, nat>>, root: nat)
    ensures Unmapped(tables, root, {}) == tables
  {
    if root in tables {
      assert tables[root] - {} == tables[root];
    }
  }

  lemma {:induction false} UnmappedTwice(tables: map<nat, map<nat, nat>>, root: nat, a: set<nat>, b: set<nat>)
    ensures Unmapped(Unmapped(tables, root, a), root, b) == Unmapped(tables, root, a + b)
  {
    if root in tables {
      assert tables[root] - a - b == tables[root] - (a + b);
    }
  }

  lemma {:induction false} ChainEnds(memory: map<nat, LogPage>, head: nat, chain: seq<nat>, a: nat)
    requires IsChain(memory, head, chain) && a <= |chain| && (a < |chain| ==> chain[a] == 0)
    ensures a == |chain|
  {
    ChainPages(memory, head, chain, 0);
  }

  /** The records with the first `n` pages of space `i` swept. */
  ghost function SweptTo(k: Kernel, i: nat, phys: nat, n: nat): Kernel
    requires i < |k.spaces| && k.spaces[i].Some? && n <= |k.spaces[i].value.pages|
  {
    var space := k.spaces[i].value;
    k.(spaces := k.spaces[i := Some(space.(pages := SweptPages(space.pages, phys, n)))],
       tables := Unmapped(k.tables, space.root, VasOf(space.pages[..n], phys)))
  }

  lemma {:induction false} SweptNone(k: Kernel, i: nat, phys: nat)
    requires i < |k.spaces| && k.spaces[i].Some?
    ensures SweptTo(k, i, phys, 0) == k
  {
    var space := k.spaces[i].value;
    assert SweptPages(space.pages, phys, 0) == space.pages;
    assert VasOf(space.pages[..0], phys) == {};
    UnmappedNone(k.tables, space.root);
  }

  lemma {:induction false} SweptNext(k: Kernel, i: nat, phys: nat, n: nat)
    requires i < |k.spaces| && k.spaces[i].Some? && n < |k.spaces[i].value.pages|
    ensures var space, part := k.spaces[i].value, SweptTo(k, i, phys, n);
            var page := part.spaces[i].value.pages[n];
            && page == space.pages[n]
            && SweptTo(k, i, phys, n + 1) ==
               part.(spaces := part.spaces[i := Some(part.spaces[i].value.(pages := part.spaces[i].value.pages[n := ErasedPage(page, phys)]))],
                     tables := Unmapped(part.tables, space.root, VasIn(page, phys, |page|)))
  {
    var space := k.spaces[i].value;
    var pages := space.pages;
    assert SweptPages(pages, phys, n + 1) == SweptPages(pages, phys, n)[n := ErasedPage(pages[n], phys)];
    assert VasOf(pages[..n + 1], phys) == VasOf(pages[..n], phys) + VasIn(pages[n], phys, |pages[n]|) by {
      VasSplit(pages, phys, n);
    }
    UnmappedTwice(k.tables, space.root, VasOf(pages[..n], phys), VasIn(pages[n], phys, |pages[n]|));
  }

  lemma {:induction false} VasSplit(pages: seq<Page>, phys: nat, n: nat)
    requires n < |pages|
    ensures VasOf(pages[..n + 1], phys) == VasOf(pages[..n], phys) + VasIn(pages[n], phys, |pages[n]|)
  {
    var longer, shorter := pages[..n + 1], pages[..n];
    forall va | va in VasOf(longer, phys) ensures va in VasOf(shorter, phys) + VasIn(pages[n], phys, |pages[n]|) {
      var i, j :| 0 <= i < |longer| && 0 <= j < |longer[i]| && longer[i][j].phys == phys && longer[i][j].va == va;
      assert i == n || shorter[i] == longer[i];
    }
    forall va | va in VasOf(shorter, phys) ensures va in VasOf(longer, phys) {
      var i, j :| 0 <= i < |shorter| && 0 <= j < |shorter[i]| && shorter[i][j].phys == phys && shorter[i][j].va == va;
      assert longer[i] == shorter[i];
    }
    forall va | va in VasIn(pages[n], phys, |pages[n]|) ensures va in VasOf(longer, phys) {
      assert longer[n] == pages[n];
    }
  }

  lemma {:induction false} SweptAll(k: Kernel, i: nat, phys: nat)
    requires i < |k.spaces| && k.spaces[i].Some?
    ensures var space := k.spaces[i].value;
            SweptTo(k, i, phys, |space.pages|) ==
            k.(spaces := k.spaces[i := Some(space.(pages := Erased(space.pages, phys)))],
               tables := Unmapped(k.tables, space.root, VasOf(space.pages, phys)))
  {
    var pages := k.spaces[i].value.pages;
    assert SweptPages(pages, phys, |pages|) == Erased(pages, phys);
    assert pages[..|pages|] == pages;
  }
}
