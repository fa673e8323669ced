/**
 Revocation over every history of registering, mapping, revoking and tearing down: the records always
 agree with the page tables, so a revoked page is mapped nowhere and nothing else is touched; a space
 never buys more log pages than its busiest moment needed; and revoking a range ends, exactly when it
 does not start at address 0 over a used entry.
 */
module RevocationRuns {
  import opened Basics
  import opened Revocation

  ghost predicate SlotOk(k: Kernel, i: nat)
    requires i < |k.spaces| && k.spaces[i].Some?
  {
    var space := k.spaces[i].value;
    && space.root != 0
    && PagesOk(space.pages)
    && (forall j :: 0 <= j < |k.spaces| && j != i && k.spaces[j].Some? ==> k.spaces[j].value.root != space.root)
    && forall e: Entry :: e.phys != 0 ==>
         (Has(space.pages, e) <==> e.va in Table(k, space.root) && Table(k, space.root)[e.va] == e.phys)
  }

  /** Live roots are distinct and nonzero, and the live records of a space are exactly its mappings. */
  ghost predicate Inv(k: Kernel) {
    && (forall i :: 0 <= i < |k.spaces| && k.spaces[i].Some? ==> SlotOk(k, i))
    && (forall root, va :: root in k.tables && va in k.tables[root] ==> k.tables[root][va] != 0 && Registered(k, root))
  }

  /** Some space maps `phys` at `va`. */
  predicate Maps(k: Kernel, root: nat, va: nat, phys: nat) {
    root in k.tables && va in k.tables[root] && k.tables[root][va] == phys
  }

  // --- the sweep ---

  lemma {:induction false} SweptIs(k: Kernel, phys: nat, spare: nat, root: nat, va: nat)
    requires Inv(k) && phys != 0
    ensures va in Swept(k.spaces, phys, spare, root) <==> root != spare && Maps(k, root, va, phys)
  {
    if va in Swept(k.spaces, phys, spare, root) {
      var i :| 0 <= i < |k.spaces| && k.spaces[i].Some? && k.spaces[i].value.root == root && va in VasOf(k.spaces[i].value.pages, phys);
      VasAre(k.spaces[i].value.pages, phys, va);
      assert SlotOk(k, i) && Has(k.spaces[i].value.pages, Entry(phys, va));
    }
    if root != spare && Maps(k, root, va, phys) {
      assert Registered(k, root);
      var i :| 0 <= i < |k.spaces| && k.spaces[i].Some? && k.spaces[i].value.root == root;
      assert SlotOk(k, i);
      assert Has(k.spaces[i].value.pages, Entry(phys, va));
      VasAre(k.spaces[i].value.pages, phys, va);
    }
  }

  /** After the sweep of `phys`, exactly the mappings of other pages and the spared space's own remain. */
  lemma {:induction false} SweepIs(k: Kernel, phys: nat, spare: nat, root: nat, va: nat, p: nat)
    requires Inv(k) && phys != 0
    ensures Maps(UnmapEverywhere(k, phys, spare), root, va, p) <==> Maps(k, root, va, p) && (p != phys || root == spare)
  {
    SweptIs(k, phys, spare, root, va);
  }

  lemma {:induction false} SweepKeepsSlot(k: Kernel, phys: nat, spare: nat, i: nat)
    requires Inv(k) && phys != 0 && i < |k.spaces| && k.spaces[i].Some?
    ensures SlotOk(UnmapEverywhere(k, phys, spare), i)
  {
    var k' := UnmapEverywhere(k, phys, spare);
    var space, space' := k.spaces[i].value, k'.spaces[i].value;
    assert SlotOk(k, i);
    forall e: Entry | e.phys != 0
      ensures Has(space'.pages, e) <==> e.va in Table(k', space.root) && Table(k', space.root)[e.va] == e.phys
    {
      SweepIs(k, phys, spare, space.root, e.va, e.phys);
      ErasedHas(space.pages, phys, e);
      assert Maps(k, space.root, e.va, e.phys) <==> Has(space.pages, e);
    }
  }

  lemma {:induction false} SweepKeeps(k: Kernel, phys: nat, spare: nat)
    requires Inv(k) && phys != 0
    ensures Inv(UnmapEverywhere(k, phys, spare))
  {
    var k' := UnmapEverywhere(k, phys, spare);
    forall i | 0 <= i < |k'.spaces| && k'.spaces[i].Some? ensures SlotOk(k', i) {
      SweepKeepsSlot(k, phys, spare, i);
    }
    forall root, va | root in k'.tables && va in k'.tables[root]
      ensures k'.tables[root][va] != 0 && Registered(k', root)
    {
      var i :| 0 <= i < |k.spaces| && k.spaces[i].Some? && k.spaces[i].value.root == root;
      assert k'.spaces[i].Some? && k'.spaces[i].value.root == root;
    }
  }

  // --- revoke, and take back ---

  /** The same space with a log as long, page by page. */
  predicate SameSpace(o: Option<Space>, o': Option<Space>) {
    if o.Some? && o'.Some? then
      && o'.value.root == o.value.root && o'.value.region == o.value.region && |o'.value.pages| == |o.value.pages|
      && forall a :: 0 <= a < |o.value.pages| ==> |o'.value.pages[a]| == |o.value.pages[a]|
    else o.None? && o'.None?
  }

  /** The same spaces in the same slots, and no page bought or given back. */
  predicate SameSpaces(k: Kernel, k': Kernel) {
    k'.budgets == k.budgets && |k'.spaces| == |k.spaces| && forall i :: 0 <= i < |k.spaces| ==> SameSpace(k.spaces[i], k'.spaces[i])
  }

  lemma {:induction false} SweepKeepsSpaces(k: Kernel, phys: nat, spare: nat)
    ensures SameSpaces(k, UnmapEverywhere(k, phys, spare))
  {
    var k' := UnmapEverywhere(k, phys, spare);
    forall i | 0 <= i < |k.spaces| ensures SameSpace(k.spaces[i], k'.spaces[i]) {
      assert k'.spaces[i] == ErasedSlot(k.spaces[i], phys, spare);
    }
  }

  /** A revoked page is mapped nowhere and named by no capability; every other mapping and capability stays. */
  lemma {:induction false} RevokeIsComplete(k: Kernel, phys: nat)
    requires Inv(k) && phys != 0
    ensures Inv(RevokeFrame(k, phys))
    ensures forall root, va, p :: Maps(RevokeFrame(k, phys), root, va, p) <==> Maps(k, root, va, p) && p != phys
    ensures forall c :: c in RevokeFrame(k, phys).frameCaps <==> c in k.frameCaps && c.1 != phys
    ensures RevokeFrame(k, phys).deviceCaps == k.deviceCaps && SameSpaces(k, RevokeFrame(k, phys))
  {
    var capless := k.(frameCaps := set c | c in k.frameCaps && c.1 != phys);
    SweepKeepsSpaces(capless, phys, 0);
    SameTables(k, capless);
    SweepKeeps(capless, phys, 0);
    forall root, va, p ensures Maps(RevokeFrame(k, phys), root, va, p) <==> Maps(k, root, va, p) && p != phys {
      SweepIs(capless, phys, 0, root, va, p);
      if Maps(k, root, va, p) {
        MappedRoot(k, root, va, p);
      }
    }
  }

  /** A device is taken back from everyone but the invoker, who keeps capability and mapping. */
  lemma {:induction false} TakeBackSparesInvoker(k: Kernel, phys: nat, thread: nat, root: nat)
    requires Inv(k) && phys != 0
    ensures Inv(RevokeDevice(k, phys, thread, root))
    ensures forall r, va, p :: Maps(RevokeDevice(k, phys, thread, root), r, va, p) <==> Maps(k, r, va, p) && (p != phys || r == root)
    ensures forall c :: c in RevokeDevice(k, phys, thread, root).deviceCaps <==> c in k.deviceCaps && (c.1 != phys || c.0 == thread)
    ensures RevokeDevice(k, phys, thread, root).frameCaps == k.frameCaps && SameSpaces(k, RevokeDevice(k, phys, thread, root))
  {
    var capless := k.(deviceCaps := set c | c in k.deviceCaps && (c.1 != phys || c.0 == thread));
    SweepKeepsSpaces(capless, phys, root);
    SameTables(k, capless);
    SweepKeeps(capless, phys, root);
    forall r, va, p ensures Maps(RevokeDevice(k, phys, thread, root), r, va, p) <==> Maps(k, r, va, p) && (p != phys || r == root) {
      SweepIs(capless, phys, root, r, va, p);
    }
  }

  lemma {:induction false} MappedRoot(k: Kernel, root: nat, va: nat, p: nat)
    requires Inv(k) && Maps(k, root, va, p)
    ensures root != 0
  {
    assert Registered(k, root);
    var i :| 0 <= i < |k.spaces| && k.spaces[i].Some? && k.spaces[i].value.root == root;
    assert SlotOk(k, i);
  }

  lemma {:induction false} SameTables(k: Kernel, k': Kernel)
    requires Inv(k) && k'.spaces == k.spaces && k'.tables == k.tables
    ensures Inv(k')
  {
    forall i | 0 <= i < |k'.spaces| && k'.spaces[i].Some? ensures SlotOk(k', i) {
      assert SlotOk(k, i);
    }
    forall root, va | root in k'.tables && va in k'.tables[root] ensures k'.tables[root][va] != 0 && Registered(k', root) {
      assert Registered(k, root);
    }
  }

  // --- map, register, drop ---

  /** The region has that many pages fewer; no other region, page table or capability has changed. */
  predicate Paid(k: Kernel, k': Kernel, region: nat, pages: int) {
    && Budget(k', region) == Budget(k, region) - pages
    && k'.budgets.Keys == k.budgets.Keys && (forall r :: r in k.budgets && r != region ==> k'.budgets[r] == k.budgets[r])
    && k'.tables == k.tables && k'.frameCaps == k.frameCaps && k'.deviceCaps == k.deviceCaps
  }

  /** What a mapping that succeeds does to its space's log: one live record more, perhaps in one page more. */
  lemma {:induction false} RecordIs(k: Kernel, phys: nat, root: nat, va: nat, x: Entry)
    requires SlotOf(k.spaces, root) < |k.spaces| && RecordMapping(k, phys, root, va).1 && x.phys != 0
    requires PagesOk(k.spaces[SlotOf(k.spaces, root)].value.pages)
    ensures var i, k' := SlotOf(k.spaces, root), RecordMapping(k, phys, root, va).0;
            var pages, pages' := k.spaces[i].value.pages, k'.spaces[i].value.pages;
            && k'.spaces == k.spaces[i := Some(k.spaces[i].value.(pages := pages'))]
            && PagesOk(pages')
            && (Has(pages', x) <==> x == Entry(phys, va) || Has(pages, x))
            && Live(pages') == Live(pages) + (if phys == 0 then 0 else 1)
            && |pages| <= |pages'| && (|pages'| > |pages| ==> |pages'| == |pages| + 1 && Live(pages) == LOG_ENTRIES * |pages|)
            && Paid(k, k', k.spaces[i].value.region, |pages'| - |pages|)
  {
    var i := SlotOf(k.spaces, root);
    var pages := k.spaces[i].value.pages;
    PlacedIs(pages, Entry(phys, va), x);
    if Placed(pages, Entry(phys, va)).None? {
      HasCons([Entry(phys, va)], pages, x);
      assert [Entry(phys, va)][1..] == [] && ([[Entry(phys, va)]] + pages)[1..] == pages;
    }
  }

  /** A record is refused exactly when the space is unknown, or its log is full to the last entry and its budget spent. */
  lemma {:induction false} RefusedIff(k: Kernel, phys: nat, root: nat, va: nat)
    requires forall i :: 0 <= i < |k.spaces| && k.spaces[i].Some? ==> PagesOk(k.spaces[i].value.pages)
    ensures var (k', ok) := RecordMapping(k, phys, root, va);
            var i := SlotOf(k.spaces, root);
            && (!ok ==> k' == k)
            && (!ok <==> i == |k.spaces| ||
                         (Live(k.spaces[i].value.pages) == LOG_ENTRIES * |k.spaces[i].value.pages| && Budget(k, k.spaces[i].value.region) == 0))
  {
    var i := SlotOf(k.spaces, root);
    if i < |k.spaces| {
      var pages := k.spaces[i].value.pages;
      PlacedIs(pages, Entry(phys, va), Entry(1, 0));
      PlacedIs(pages, Entry(1, va), Entry(1, 0));
      PlacedSame(pages, Entry(phys, va), Entry(1, va));
      LiveBound(pages);
      if Placed(pages, Entry(1, va)).Some? {
        LiveBound(Placed(pages, Entry(1, va)).value);
      }
    }
  }

  lemma {:induction false} PlacedSame(pages: seq<Page>, a: Entry, b: Entry)
    ensures Placed(pages, a).Some? <==> Placed(pages, b).Some?
  {
    if pages != [] {
      PlacedSame(pages[1..], a, b);
    }
  }

  lemma {:induction false} LiveBound(pages: seq<Page>)
    requires PagesOk(pages)
    ensures Live(pages) <= LOG_ENTRIES * |pages|
  {
    if pages != [] {
      LiveBound(pages[1..]);
    }
  }

  /** The mapping space's log gains the record its table gains the mapping of. */
  lemma {:induction false} MapSlot(k: Kernel, phys: nat, root: nat, va: nat, j: nat)
    requires Inv(k) && phys != 0 && MapPage(k, phys, root, va).1 && j < |k.spaces| && k.spaces[j].Some?
    ensures j < |MapPage(k, phys, root, va).0.spaces| && MapPage(k, phys, root, va).0.spaces[j].Some? && SlotOk(MapPage(k, phys, root, va).0, j)
  {
    var k' := MapPage(k, phys, root, va).0;
    var mapped := k.(tables := k.tables[root := Table(k, root)[va := phys]]);
    var i := SlotOf(k.spaces, root);
    assert SlotOk(k, i) && SlotOk(k, j);
    RecordIs(mapped, phys, root, va, Entry(1, 0));
    assert Table(k', root) == Table(k, root)[va := phys];
    if j == i {
      forall x: Entry | x.phys != 0
        ensures Has(k'.spaces[i].value.pages, x) <==> x.va in Table(k', root) && Table(k', root)[x.va] == x.phys
      {
        RecordIs(mapped, phys, root, va, x);
      }
    }
  }

  lemma {:induction false} MapKeeps(k: Kernel, phys: nat, root: nat, va: nat)
    requires Inv(k) && phys != 0
    ensures Inv(MapPage(k, phys, root, va).0)
    ensures MapPage(k, phys, root, va).1 ==>
              forall r, a, p :: Maps(MapPage(k, phys, root, va).0, r, a, p) <==> Maps(k, r, a, p) || (r == root && a == va && p == phys)
    ensures !MapPage(k, phys, root, va).1 ==> MapPage(k, phys, root, va).0 == k
    ensures MapPage(k, phys, root, va).0.frameCaps == k.frameCaps && MapPage(k, phys, root, va).0.deviceCaps == k.deviceCaps
  {
    var (k', ok) := MapPage(k, phys, root, va);
    if ok {
      var i := SlotOf(k.spaces, root);
      assert SlotOk(k, i);
      RecordIs(k.(tables := k.tables[root := Table(k, root)[va := phys]]), phys, root, va, Entry(1, 0));
      forall j | 0 <= j < |k'.spaces| && k'.spaces[j].Some? ensures SlotOk(k', j) {
        MapSlot(k, phys, root, va, j);
      }
      forall r, a | r in k'.tables && a in k'.tables[r] ensures k'.tables[r][a] != 0 && Registered(k', r) {
        StillRegistered(k, k', i, r);
      }
    }
  }

  lemma {:induction false} StillRegistered(k: Kernel, k': Kernel, i: nat, root: nat)
    requires i < |k.spaces| == |k'.spaces| && k.spaces[i].Some? && k'.spaces[i].Some?
    requires k'.spaces[i].value.root == k.spaces[i].value.root && k'.spaces == k.spaces[i := k'.spaces[i]]
    ensures root == k.spaces[i].value.root || Registered(k, root) ==> Registered(k', root)
  {
    if root != k.spaces[i].value.root && Registered(k, root) {
      var j :| 0 <= j < |k.spaces| && k.spaces[j].Some? && k.spaces[j].value.root == root;
      assert k'.spaces[j] == k.spaces[j];
    }
  }

  lemma {:induction false} RegisterKeeps(k: Kernel, root: nat, region: nat)
    requires Inv(k) && root != 0 && !Registered(k, root)
    ensures Inv(RegisterSpace(k, root, region).0)
  {
    var (k', ok) := RegisterSpace(k, root, region);
    if ok {
      var i := FreeSlot(k.spaces);
      assert forall va :: va in Table(k, root) ==> Registered(k, root);
      assert Table(k, root) == map[];
      forall j | 0 <= j < |k'.spaces| && k'.spaces[j].Some? ensures SlotOk(k', j) {
        if j != i {
          assert SlotOk(k, j);
        }
      }
      forall r, va | r in k'.tables && va in k'.tables[r] ensures k'.tables[r][va] != 0 && Registered(k', r) {
        var j :| 0 <= j < |k.spaces| && k.spaces[j].Some? && k.spaces[j].value.root == r;
        assert k'.spaces[j] == k.spaces[j];
      }
    }
  }

  lemma {:induction false} DropKeeps(k: Kernel, root: nat)
    requires Inv(k)
    ensures Inv(DropSpace(k, root))
    ensures forall r, va, p :: Maps(DropSpace(k, root), r, va, p) <==> Maps(k, r, va, p) && r != root
    ensures Forgets(k, root, DropSpace(k, root).(tables := k.tables))
  {
    var k' := DropSpace(k, root);
    ForgetIs(k, root);
    forall j | 0 <= j < |k'.spaces| && k'.spaces[j].Some? ensures SlotOk(k', j) {
      assert SlotOk(k, j) && k'.spaces[j] == k.spaces[j];
    }
    forall r, va | r in k'.tables && va in k'.tables[r] ensures k'.tables[r][va] != 0 && Registered(k', r) {
      var j :| 0 <= j < |k.spaces| && k.spaces[j].Some? && k.spaces[j].value.root == r;
      assert k'.spaces[j] == k.spaces[j];
    }
  }

  // --- revoking a range ---

  predicate InRange(phys: nat, base: nat, size: nat) { base <= phys < base + size }

  function VictimIn(page: Page, base: nat, size: nat): Option<nat> {
    if page == [] then None
    else if InRange(page[0].phys, base, size) then Some(page[0].phys)
    else VictimIn(page[1..], base, size)
  }

  function VictimOf(pages: seq<Page>, base: nat, size: nat): Option<nat> {
    if pages == [] then None
    else if VictimIn(pages[0], base, size).Some? then VictimIn(pages[0], base, size)
    else VictimOf(pages[1..], base, size)
  }

  /** The first recorded page in range, in the order the registry and the logs are scanned. A tombstone is a record of page 0. */
  function Victim(spaces: seq<Option<Space>>, base: nat, size: nat): Option<nat> {
    if spaces == [] then None
    else if spaces[0].Some? && VictimOf(spaces[0].value.pages, base, size).Some? then VictimOf(spaces[0].value.pages, base, size)
    else Victim(spaces[1..], base, size)
  }

  function CountIn(page: Page, base: nat, size: nat): nat {
    if page == [] then 0 else (if InRange(page[0].phys, base, size) then 1 else 0) + CountIn(page[1..], base, size)
  }

  function CountOf(pages: seq<Page>, base: nat, size: nat): nat {
    if pages == [] then 0 else CountIn(pages[0], base, size) + CountOf(pages[1..], base, size)
  }

  function CountSlot(o: Option<Space>, base: nat, size: nat): nat {
    if o.Some? then CountOf(o.value.pages, base, size) else 0
  }

  /** How many used entries of live spaces are in range. */
  function Count(spaces: seq<Option<Space>>, base: nat, size: nat): nat {
    if spaces == [] then 0 else CountSlot(spaces[0], base, size) + Count(spaces[1..], base, size)
  }

  lemma {:induction false} CountInIs(page: Page, base: nat, size: nat, phys: nat)
    requires base > 0
    ensures VictimIn(page, base, size).Some? <==> CountIn(page, base, size) > 0
    ensures CountIn(ErasedPage(page, phys), base, size) <= CountIn(page, base, size)
    ensures VictimIn(page, base, size) == Some(phys) ==> InRange(phys, base, size) && CountIn(ErasedPage(page, phys), base, size) < CountIn(page, base, size)
  {
    if page != [] {
      assert ErasedPage(page, phys)[1..] == ErasedPage(page[1..], phys);
      CountInIs(page[1..], base, size, phys);
    }
  }

  lemma {:induction false} CountOfIs(pages: seq<Page>, base: nat, size: nat, phys: nat)
    requires base > 0
    ensures VictimOf(pages, base, size).Some? <==> CountOf(pages, base, size) > 0
    ensures CountOf(Erased(pages, phys), base, size) <= CountOf(pages, base, size)
    ensures VictimOf(pages, base, size) == Some(phys) ==> InRange(phys, base, size) && CountOf(Erased(pages, phys), base, size) < CountOf(pages, base, size)
  {
    if pages != [] {
      assert Erased(pages, phys)[1..] == Erased(pages[1..], phys);
      CountInIs(pages[0], base, size, phys);
      CountOfIs(pages[1..], base, size, phys);
    }
  }

  function ErasedAll(spaces: seq<Option<Space>>, phys: nat, spare: nat): (r: seq<Option<Space>>)
    ensures |r| == |spaces|
    ensures forall i :: 0 <= i < |spaces| ==> r[i] == ErasedSlot(spaces[i], phys, spare)
  {
    seq(|spaces|, i requires 0 <= i < |spaces| => ErasedSlot(spaces[i], phys, spare))
  }

  /** Each pass leaves strictly fewer used entries in range. */
  lemma {:induction false} PassShrinks(spaces: seq<Option<Space>>, base: nat, size: nat, phys: nat)
    requires base > 0 && forall i :: 0 <= i < |spaces| && spaces[i].Some? ==> spaces[i].value.root != 0
    ensures Victim(spaces, base, size).Some? <==> Count(spaces, base, size) > 0
    ensures Count(ErasedAll(spaces, phys, 0), base, size) <= Count(spaces, base, size)
    ensures Victim(spaces, base, size) == Some(phys) ==>
              InRange(phys, base, size) && Count(ErasedAll(spaces, phys, 0), base, size) < Count(spaces, base, size)
  {
    if spaces != [] {
      assert ErasedAll(spaces, phys, 0)[1..] == ErasedAll(spaces[1..], phys, 0);
      if spaces[0].Some? {
        CountOfIs(spaces[0].value.pages, base, size, phys);
      }
      PassShrinks(spaces[1..], base, size, phys);
    }
  }

  lemma {:induction false} NoneInPage(page: Page, base: nat, size: nat, e: Entry)
    requires VictimIn(page, base, size).None? && e in page
    ensures !InRange(e.phys, base, size)
  {
    if page[0] != e {
      assert e in page[1..];
      NoneInPage(page[1..], base, size, e);
    }
  }

  lemma {:induction false} NoneInPages(pages: seq<Page>, base: nat, size: nat, e: Entry)
    requires VictimOf(pages, base, size).None? && Has(pages, e)
    ensures !InRange(e.phys, base, size)
  {
    assert pages == [pages[0]] + pages[1..];
    HasCons(pages[0], pages[1..], e);
    if e in pages[0] {
      NoneInPage(pages[0], base, size, e);
    } else {
      NoneInPages(pages[1..], base, size, e);
    }
  }

  lemma {:induction false} NoneInSpaces(spaces: seq<Option<Space>>, base: nat, size: nat, i: nat, e: Entry)
    requires Victim(spaces, base, size).None? && i < |spaces| && spaces[i].Some? && Has(spaces[i].value.pages, e)
    ensures !InRange(e.phys, base, size)
  {
    if i == 0 {
      NoneInPages(spaces[0].value.pages, base, size, e);
    } else {
      NoneInSpaces(spaces[1..], base, size, i - 1, e);
    }
  }

  /** The loop of `revoke_region`, which this takes to its end when the range does not start at 0. */
  function RevokeRange(k: Kernel, base: nat, size: nat): Kernel
    requires base > 0 && forall i :: 0 <= i < |k.spaces| && k.spaces[i].Some? ==> k.spaces[i].value.root != 0
    decreases Count(k.spaces, base, size)
  {
    match Victim(k.spaces, base, size)
    case None => k
    case Some(phys) =>
      PassShrinks(k.spaces, base, size, phys);
      assert RevokeFrame(k, phys).spaces == ErasedAll(k.spaces, phys, 0);
      RevokeRange(RevokeFrame(k, phys), base, size)
  }

  /** Some space maps the page. */
  ghost predicate Mapped(k: Kernel, phys: nat) {
    exists root, va :: Maps(k, root, va, phys)
  }

  lemma {:induction false} VictimIsMapped(k: Kernel, base: nat, size: nat, i: nat)
    requires Inv(k) && base > 0 && i <= |k.spaces| && Victim(k.spaces[i..], base, size).Some?
    ensures Mapped(k, Victim(k.spaces[i..], base, size).value) && InRange(Victim(k.spaces[i..], base, size).value, base, size)
    decreases |k.spaces| - i
  {
    var rest := k.spaces[i..];
    if rest[0].Some? && VictimOf(rest[0].value.pages, base, size).Some? {
      assert SlotOk(k, i);
      var e := VictimRecorded(rest[0].value.pages, base, size);
      assert Maps(k, rest[0].value.root, e.va, e.phys);
    } else {
      assert rest[1..] == k.spaces[i + 1..];
      VictimIsMapped(k, base, size, i + 1);
    }
  }

  lemma {:induction false} VictimRecorded(pages: seq<Page>, base: nat, size: nat) returns (e: Entry)
    requires VictimOf(pages, base, size).Some?
    ensures Has(pages, e) && VictimOf(pages, base, size) == Some(e.phys) && InRange(e.phys, base, size)
  {
    assert pages == [pages[0]] + pages[1..];
    if VictimIn(pages[0], base, size).Some? {
      e := VictimInPage(pages[0], base, size);
    } else {
      e := VictimRecorded(pages[1..], base, size);
    }
    HasCons(pages[0], pages[1..], e);
  }

  lemma {:induction false} VictimInPage(page: Page, base: nat, size: nat) returns (e: Entry)
    requires VictimIn(page, base, size).Some?
    ensures e in page && VictimIn(page, base, size) == Some(e.phys) && InRange(e.phys, base, size)
  {
    if InRange(page[0].phys, base, size) {
      e := page[0];
    } else {
      e := VictimInPage(page[1..], base, size);
    }
  }

  /**
   Revoking a range leaves no space mapping a page of it and no other mapping touched. The capability
   sweep goes page by page through the records, so it reaches the pages of the range that were mapped
   somewhere, and only those.
   */
  lemma {:induction false} RangeIsRevoked(k: Kernel, base: nat, size: nat, root: nat, va: nat, p: nat, c: (nat, nat))
    requires Inv(k) && base > 0
    ensures forall i :: 0 <= i < |k.spaces| && k.spaces[i].Some? ==> k.spaces[i].value.root != 0
    ensures Inv(RevokeRange(k, base, size))
    ensures Maps(RevokeRange(k, base, size), root, va, p) <==> Maps(k, root, va, p) && !InRange(p, base, size)
    ensures c in RevokeRange(k, base, size).frameCaps <==> c in k.frameCaps && !(InRange(c.1, base, size) && Mapped(k, c.1))
    ensures RevokeRange(k, base, size).deviceCaps == k.deviceCaps && SameSpaces(k, RevokeRange(k, base, size))
    decreases Count(k.spaces, base, size)
  {
    RootsNonzero(k);
    match Victim(k.spaces, base, size)
    case None =>
      NothingMappedInRange(k, base, size);
    case Some(phys) =>
      var k' := RevokeFrame(k, phys);
      PassShrinks(k.spaces, base, size, phys);
      assert k.spaces[0..] == k.spaces;
      VictimIsMapped(k, base, size, 0);
      RevokeIsComplete(k, phys);
      assert k'.spaces == ErasedAll(k.spaces, phys, 0);
      RangeIsRevoked(k', base, size, root, va, p, c);
      SameSpacesChain(k, k', RevokeRange(k', base, size));
      if c.1 != phys {
        StillMapped(k, k', phys, c.1);
      }
  }

  lemma {:induction false} SameSpacesChain(k: Kernel, k1: Kernel, k2: Kernel)
    requires SameSpaces(k, k1) && SameSpaces(k1, k2)
    ensures SameSpaces(k, k2)
  {
    forall i | 0 <= i < |k.spaces| ensures SameSpace(k.spaces[i], k2.spaces[i]) {
      assert SameSpace(k.spaces[i], k1.spaces[i]) && SameSpace(k1.spaces[i], k2.spaces[i]);
    }
  }

  lemma {:induction false} RootsNonzero(k: Kernel)
    requires Inv(k)
    ensures forall i :: 0 <= i < |k.spaces| && k.spaces[i].Some? ==> k.spaces[i].value.root != 0
  {
    forall i | 0 <= i < |k.spaces| && k.spaces[i].Some? ensures k.spaces[i].value.root != 0 {
      assert SlotOk(k, i);
    }
  }

  lemma {:induction false} StillMapped(k: Kernel, k': Kernel, phys: nat, q: nat)
    requires q != phys && forall r, a, p :: Maps(k', r, a, p) <==> Maps(k, r, a, p) && p != phys
    ensures Mapped(k', q) <==> Mapped(k, q)
  {
    if Mapped(k, q) {
      var r, a :| Maps(k, r, a, q);
      assert Maps(k', r, a, q);
    }
    if Mapped(k', q) {
      var r, a :| Maps(k', r, a, q);
      assert Maps(k, r, a, q);
    }
  }

  lemma {:induction false} NothingMappedInRange(k: Kernel, base: nat, size: nat)
    requires Inv(k) && Victim(k.spaces, base, size).None?
    ensures forall p :: InRange(p, base, size) ==> !Mapped(k, p)
    ensures forall root, va, p :: Maps(k, root, va, p) ==> !InRange(p, base, size)
  {
    forall root, va, p | Maps(k, root, va, p) ensures !InRange(p, base, size) {
      assert Registered(k, root);
      var i :| 0 <= i < |k.spaces| && k.spaces[i].Some? && k.spaces[i].value.root == root;
      assert SlotOk(k, i);
      assert Has(k.spaces[i].value.pages, Entry(p, va));
      NoneInSpaces(k.spaces, base, size, i, Entry(p, va));
    }
  }

  // --- when it ends ---

  /** `n` passes of the loop: each finds a victim and revokes it; a pass that finds none has ended it. */
  function Passes(k: Kernel, base: nat, size: nat, n: nat): Kernel
    decreases n
  {
    if n == 0 || Victim(k.spaces, base, size).None? then k
    else Passes(RevokeFrame(k, Victim(k.spaces, base, size).value), base, size, n - 1)
  }

  ghost predicate Ends(k: Kernel, base: nat, size: nat) {
    exists n :: Victim(Passes(k, base, size, n).spaces, base, size).None?
  }

  /** From base 0, a used entry in range never goes away: erasing it makes it a tombstone, which is a record of page 0. */
  lemma {:induction false} ZeroNeverEnds(k: Kernel, size: nat, n: nat)
    requires Victim(k.spaces, 0, size).Some? && forall i :: 0 <= i < |k.spaces| && k.spaces[i].Some? ==> k.spaces[i].value.root != 0
    ensures Victim(Passes(k, 0, size, n).spaces, 0, size).Some?
    decreases n
  {
    if n > 0 {
      var phys := Victim(k.spaces, 0, size).value;
      var k' := RevokeFrame(k, phys);
      assert k'.spaces == ErasedAll(k.spaces, phys, 0);
      VictimSurvives(k.spaces, size, phys);
      ZeroNeverEnds(k', size, n - 1);
    }
  }

  lemma {:induction false} VictimInSurvives(page: Page, size: nat, phys: nat)
    requires VictimIn(page, 0, size).Some?
    ensures VictimIn(ErasedPage(page, phys), 0, size).Some?
  {
    assert ErasedPage(page, phys)[1..] == ErasedPage(page[1..], phys);
    if !InRange(page[0].phys, 0, size) {
      VictimInSurvives(page[1..], size, phys);
    }
  }

  lemma {:induction false} VictimOfSurvives(pages: seq<Page>, size: nat, phys: nat)
    requires VictimOf(pages, 0, size).Some?
    ensures VictimOf(Erased(pages, phys), 0, size).Some?
  {
    assert Erased(pages, phys)[1..] == Erased(pages[1..], phys);
    if VictimIn(pages[0], 0, size).Some? {
      VictimInSurvives(pages[0], size, phys);
    } else {
      VictimOfSurvives(pages[1..], size, phys);
    }
  }

  lemma {:induction false} VictimSurvives(spaces: seq<Option<Space>>, size: nat, phys: nat)
    requires Victim(spaces, 0, size).Some?
    ensures Victim(ErasedAll(spaces, phys, 0), 0, size).Some?
  {
    assert ErasedAll(spaces, phys, 0)[1..] == ErasedAll(spaces[1..], phys, 0);
    if spaces[0].Some? && VictimOf(spaces[0].value.pages, 0, size).Some? {
      VictimOfSurvives(spaces[0].value.pages, size, phys);
    } else {
      VictimSurvives(spaces[1..], size, phys);
    }
  }

  lemma {:induction false} PositiveEnds(k: Kernel, base: nat, size: nat) returns (n: nat)
    requires base > 0 && forall i :: 0 <= i < |k.spaces| && k.spaces[i].Some? ==> k.spaces[i].value.root != 0
    ensures Victim(Passes(k, base, size, n).spaces, base, size).None?
    ensures Passes(k, base, size, n) == RevokeRange(k, base, size)
    decreases Count(k.spaces, base, size)
  {
    if Victim(k.spaces, base, size).None? {
      n := 0;
    } else {
      var phys := Victim(k.spaces, base, size).value;
      var k' := RevokeFrame(k, phys);
      PassShrinks(k.spaces, base, size, phys);
      assert k'.spaces == ErasedAll(k.spaces, phys, 0);
      var m := PositiveEnds(k', base, size);
      n := m + 1;
    }
  }

  /** The loop ends unless the range starts at 0 and a used entry, tombstone or not, falls into it. */
  lemma {:induction false} EndsIff(k: Kernel, base: nat, size: nat)
    requires Inv(k)
    ensures Ends(k, base, size) <==> base > 0 || Victim(k.spaces, base, size).None?
  {
    RootsNonzero(k);
    if base > 0 {
      var n := PositiveEnds(k, base, size);
    } else if Victim(k.spaces, base, size).None? {
      assert Passes(k, base, size, 0) == k;
    } else {
      forall n: nat ensures Victim(Passes(k, base, size, n).spaces, base, size).Some? {
        ZeroNeverEnds(k, size, n);
      }
    }
  }

  /** One space whose only record has been revoked, and a range that starts at 0. */
  lemma {:induction false} TombstoneAtZero()
    ensures var k := Kernel([Some(Space(1, 1, [[Entry(0, 7)]]))], map[], map[], {}, {});
            Inv(k) && Victim(k.spaces, 0, 1) == Some(0) && !Ends(k, 0, 1)
  {
    var pages := [[Entry(0, 7)]];
    var k := Kernel([Some(Space(1, 1, pages))], map[], map[], {}, {});
    forall e: Entry | e.phys != 0 ensures !Has(pages, e) {
    }
    assert SlotOk(k, 0);
    assert VictimIn(pages[0], 0, 1) == Some(0);
    assert VictimOf(pages, 0, 1) == Some(0);
    EndsIff(k, 0, 1);
  }

  // --- every history ---

  datatype Op =
    | Register(root: nat, region: nat)
    | Map(phys: nat, root: nat, va: nat)
    | Revoke(phys: nat)
    | TakeBack(phys: nat, thread: nat, root: nat)
    | Range(base: nat, size: nat)
    | Drop(root: nat)

  /** What the callers guarantee: pages and range bases are not 0, and a new root is nonzero and not live. */
  ghost predicate Allowed(k: Kernel, op: Op) {
    match op
    case Register(root, _) => root != 0 && !Registered(k, root)
    case Map(phys, _, _) => phys != 0
    case Revoke(phys) => phys != 0
    case TakeBack(phys, _, _) => phys != 0
    case Range(base, _) => base != 0
    case Drop(_) => true
  }

  function Step(k: Kernel, op: Op): Kernel
    requires forall i :: 0 <= i < |k.spaces| && k.spaces[i].Some? ==> k.spaces[i].value.root != 0
    requires op.Range? ==> op.base > 0
  {
    match op
    case Register(root, region) => RegisterSpace(k, root, region).0
    case Map(phys, root, va) => MapPage(k, phys, root, va).0
    case Revoke(phys) => RevokeFrame(k, phys)
    case TakeBack(phys, thread, root) => RevokeDevice(k, phys, thread, root)
    case Range(base, size) => RevokeRange(k, base, size)
    case Drop(root) => DropSpace(k, root)
  }

  lemma {:induction false} StepKeeps(k: Kernel, op: Op)
    requires Inv(k) && Allowed(k, op)
    ensures forall i :: 0 <= i < |k.spaces| && k.spaces[i].Some? ==> k.spaces[i].value.root != 0
    ensures Inv(Step(k, op))
  {
    RootsNonzero(k);
    match op
    case Register(root, region) => RegisterKeeps(k, root, region);
    case Map(phys, root, va) => MapKeeps(k, phys, root, va);
    case Revoke(phys) => RevokeIsComplete(k, phys);
    case TakeBack(phys, thread, root) => TakeBackSparesInvoker(k, phys, thread, root);
    case Range(base, size) => RangeIsRevoked(k, base, size, 0, 0, 0, (0, 0));
    case Drop(root) => DropKeeps(k, root);
  }

  ghost predicate StepTo(k: Kernel, op: Op, k': Kernel) {
    && Allowed(k, op)
    && (forall i :: 0 <= i < |k.spaces| && k.spaces[i].Some? ==> k.spaces[i].value.root != 0)
    && k' == Step(k, op)
  }

  /** A history: the states a kernel goes through. */
  ghost predicate History(ks: seq<Kernel>, ops: seq<Op>) {
    && |ks| == |ops| + 1
    && Inv(ks[0])
    && forall i :: 0 <= i < |ops| ==> StepTo(ks[i], ops[i], ks[i + 1])
  }

  lemma {:induction false} HistoryKeeps(ks: seq<Kernel>, ops: seq<Op>, n: nat)
    requires History(ks, ops) && n < |ks|
    ensures Inv(ks[n])
  {
    if n > 0 {
      HistoryKeeps(ks, ops, n - 1);
      assert StepTo(ks[n - 1], ops[n - 1], ks[n - 1 + 1]);
      StepKeeps(ks[n - 1], ops[n - 1]);
    }
  }

  // --- how many log pages a space buys ---

  /** The log of the space rooted at `root`; empty when there is no such space. */
  function LogOf(spaces: seq<Option<Space>>, root: nat): seq<Page> {
    var i := SlotOf(spaces, root);
    if i < |spaces| then spaces[i].value.pages else []
  }

  /** The most records the space had at once in the first `n + 1` states. */
  function Peak(ks: seq<Kernel>, root: nat, n: nat): nat
    requires n < |ks|
  {
    var live := Live(LogOf(ks[n].spaces, root));
    if n == 0 then live else if Peak(ks, root, n - 1) < live then live else Peak(ks, root, n - 1)
  }

  /** A page is bought only when every page there is full to the last entry. */
  ghost predicate Grows(pages: seq<Page>, pages': seq<Page>) {
    |pages'| <= |pages| || (|pages'| == |pages| + 1 && Live(pages') == LOG_ENTRIES * |pages| + 1)
  }

  lemma {:induction false} SlotIs(spaces: seq<Option<Space>>, root: nat, i: nat)
    requires i < |spaces| && spaces[i].Some? && spaces[i].value.root == root
    requires forall j :: 0 <= j < |spaces| && j != i && spaces[j].Some? ==> spaces[j].value.root != root
    ensures SlotOf(spaces, root) == i
  {
  }

  lemma {:induction false} SlotAbsent(spaces: seq<Option<Space>>, root: nat)
    requires forall j :: 0 <= j < |spaces| && spaces[j].Some? ==> spaces[j].value.root != root
    ensures SlotOf(spaces, root) == |spaces|
  {
  }

  /** The sweep changes no page count. */
  lemma {:induction false} SweptLog(spaces: seq<Option<Space>>, phys: nat, spare: nat, root: nat)
    ensures |LogOf(ErasedAll(spaces, phys, spare), root)| == |LogOf(spaces, root)|
  {
    var i, spaces' := SlotOf(spaces, root), ErasedAll(spaces, phys, spare);
    assert SlotOf(spaces', root) == i by {
      assert forall j :: 0 <= j < |spaces| ==> spaces'[j].Some? == spaces[j].Some? && (spaces[j].Some? ==> spaces'[j].value.root == spaces[j].value.root);
      assert forall j :: 0 <= j < i ==> spaces'[j].None? || spaces'[j].value.root != root;
    }
  }

  lemma {:induction false} RangeLog(k: Kernel, base: nat, size: nat, root: nat)
    requires base > 0 && forall i :: 0 <= i < |k.spaces| && k.spaces[i].Some? ==> k.spaces[i].value.root != 0
    ensures |LogOf(RevokeRange(k, base, size).spaces, root)| == |LogOf(k.spaces, root)|
    decreases Count(k.spaces, base, size)
  {
    if Victim(k.spaces, base, size).Some? {
      var phys := Victim(k.spaces, base, size).value;
      PassShrinks(k.spaces, base, size, phys);
      assert RevokeFrame(k, phys).spaces == ErasedAll(k.spaces, phys, 0);
      SweptLog(k.spaces, phys, 0, root);
      RangeLog(RevokeFrame(k, phys), base, size, root);
    }
  }

  lemma {:induction false} MapLog(k: Kernel, phys: nat, at: nat, va: nat, root: nat)
    requires Inv(k) && phys != 0
    ensures Grows(LogOf(k.spaces, root), LogOf(MapPage(k, phys, at, va).0.spaces, root))
  {
    var (k', ok) := MapPage(k, phys, at, va);
    if ok {
      var mapped := k.(tables := k.tables[at := Table(k, at)[va := phys]]);
      var i, j := SlotOf(k.spaces, at), SlotOf(k.spaces, root);
      assert SlotOk(k, i);
      RecordIs(mapped, phys, at, va, Entry(1, 0));
      assert forall m :: 0 <= m < |k.spaces| ==> k'.spaces[m].Some? == k.spaces[m].Some? && (k.spaces[m].Some? ==> k'.spaces[m].value.root == k.spaces[m].value.root);
      assert SlotOf(k'.spaces, root) == j;
    }
  }

  lemma {:induction false} RegisterLog(k: Kernel, at: nat, region: nat, root: nat)
    requires Inv(k) && at != 0 && !Registered(k, at)
    ensures Grows(LogOf(k.spaces, root), LogOf(RegisterSpace(k, at, region).0.spaces, root))
  {
    var (k', ok) := RegisterSpace(k, at, region);
    if ok {
      var i, j := FreeSlot(k.spaces), SlotOf(k.spaces, root);
      if root == at {
        SlotAbsent(k.spaces, root);
        SlotIs(k'.spaces, root, i);
      } else if j < |k.spaces| {
        assert SlotOk(k, j);
        SlotIs(k'.spaces, root, j);
      } else {
        SlotAbsent(k'.spaces, root);
      }
    }
  }

  lemma {:induction false} DropLog(k: Kernel, at: nat, root: nat)
    requires Inv(k)
    ensures Grows(LogOf(k.spaces, root), LogOf(DropSpace(k, at).spaces, root))
  {
    var k', j := DropSpace(k, at), SlotOf(k.spaces, root);
    if root == at || j == |k.spaces| {
      SlotAbsent(k'.spaces, root);
    } else {
      assert SlotOk(k, j);
      SlotIs(k'.spaces, root, j);
    }
  }

  lemma {:induction false} StepLog(k: Kernel, op: Op, root: nat)
    requires Inv(k) && Allowed(k, op)
    ensures forall i :: 0 <= i < |k.spaces| && k.spaces[i].Some? ==> k.spaces[i].value.root != 0
    ensures Grows(LogOf(k.spaces, root), LogOf(Step(k, op).spaces, root))
  {
    RootsNonzero(k);
    match op
    case Register(at, region) => RegisterLog(k, at, region, root);
    case Map(phys, at, va) => MapLog(k, phys, at, va, root);
    case Revoke(phys) =>
      SweptLog(k.spaces, phys, 0, root);
      assert Step(k, op).spaces == ErasedAll(k.spaces, phys, 0);
    case TakeBack(phys, thread, spare) =>
      SweptLog(k.spaces, phys, spare, root);
      assert Step(k, op).spaces == ErasedAll(k.spaces, phys, spare);
    case Range(base, size) => RangeLog(k, base, size, root);
    case Drop(at) => DropLog(k, at, root);
  }

  /** Over every history that starts with an empty log, a space owns at most ceil(peak / 255) log pages. */
  lemma {:induction false} LogBound(ks: seq<Kernel>, ops: seq<Op>, root: nat, n: nat)
    requires History(ks, ops) && n < |ks| && LogOf(ks[0].spaces, root) == []
    ensures LOG_ENTRIES * |LogOf(ks[n].spaces, root)| < Peak(ks, root, n) + LOG_ENTRIES
  {
    if n > 0 {
      LogBound(ks, ops, root, n - 1);
      HistoryKeeps(ks, ops, n - 1);
      assert StepTo(ks[n - 1], ops[n - 1], ks[n - 1 + 1]);
      StepLog(ks[n - 1], ops[n - 1], root);
      BoundStep(LogOf(ks[n - 1].spaces, root), LogOf(ks[n].spaces, root), Peak(ks, root, n - 1), Peak(ks, root, n));
    }
  }

  lemma {:induction false} BoundStep(pages: seq<Page>, pages': seq<Page>, peak: nat, peak': nat)
    requires Grows(pages, pages') && LOG_ENTRIES * |pages| < peak + LOG_ENTRIES && peak <= peak' && Live(pages') <= peak'
    ensures LOG_ENTRIES * |pages'| < peak' + LOG_ENTRIES
  {
  }
}
