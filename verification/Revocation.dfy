/**
 The mapping database for revocation, as values: which address space recorded which mapping, in which
 page of its own log, and what the page tables and capability tables hold. A record whose physical
 address is 0 is a tombstone.
 */
module Revocation {
  import opened Basics

  /** How many entries fit a log page after its header. */
  const LOG_ENTRIES: nat := 255

  /** The most address spaces the registry tracks. */
  const MAX_SPACES: nat := 160

  /** `va` in the owning space maps `phys`. */
  datatype Entry = Entry(phys: nat, va: nat)

  /** The entries ever written to a log page: its `used` prefix. */
  type Page = seq<Entry>

  /** A live address space: its root, the region that pays for its records, and its log, newest page first. */
  datatype Space = Space(root: nat, region: nat, pages: seq<Page>)

  datatype Kernel = Kernel(
    spaces: seq<Option<Space>>,
    budgets: map<nat, nat>,
    tables: map<nat, map<nat, nat>>,
    frameCaps: set<(nat, nat)>,
    deviceCaps: set<(nat, nat)>)

  // --- one log ---

  predicate HasHole(page: Page) {
    exists j :: 0 <= j < |page| && page[j].phys == 0
  }

  /** The page with its first tombstone reused. */
  function Filled(page: Page, e: Entry): (r: Page)
    requires HasHole(page)
    ensures |r| == |page|
  {
    if page[0].phys == 0 then [e] + page[1..]
    else
      assert HasHole(page[1..]) by {
        var j :| 0 <= j < |page| && page[j].phys == 0;
        assert page[1..][j - 1].phys == 0;
      }
      [page[0]] + Filled(page[1..], e)
  }

  /** The log with one more record, in the first page with a tombstone or headroom; `None` when every page is full. */
  function Placed(pages: seq<Page>, e: Entry): Option<seq<Page>> {
    if pages == [] then None
    else if HasHole(pages[0]) then Some([Filled(pages[0], e)] + pages[1..])
    else if |pages[0]| < LOG_ENTRIES then Some([pages[0] + [e]] + pages[1..])
    else
      match Placed(pages[1..], e)
      case None => None
      case Some(rest) => Some([pages[0]] + rest)
  }

  function ErasedPage(page: Page, phys: nat): (r: Page)
    ensures |r| == |page|
    ensures forall j :: 0 <= j < |page| ==> r[j] == if page[j].phys == phys then Entry(0, page[j].va) else page[j]
  {
    seq(|page|, j requires 0 <= j < |page| => if page[j].phys == phys then Entry(0, page[j].va) else page[j])
  }

  /** The log with every record of `phys` tombstoned. */
  function Erased(pages: seq<Page>, phys: nat): (r: seq<Page>)
    ensures |r| == |pages|
    ensures forall i :: 0 <= i < |pages| ==> r[i] == ErasedPage(pages[i], phys)
  {
    seq(|pages|, i requires 0 <= i < |pages| => ErasedPage(pages[i], phys))
  }

  /** The addresses at which the log records `phys`. */
  function VasOf(pages: seq<Page>, phys: nat): set<nat> {
    set i, j | 0 <= i < |pages| && 0 <= j < |pages[i]| && pages[i][j].phys == phys :: pages[i][j].va
  }

  // --- the operations ---

  function FreeSlot(spaces: seq<Option<Space>>): (i: nat)
    ensures i <= |spaces|
    ensures i < |spaces| ==> spaces[i].None?
    ensures forall j :: 0 <= j < i ==> spaces[j].Some?
  {
    if spaces == [] || spaces[0].None? then 0 else 1 + FreeSlot(spaces[1..])
  }

  /** The first slot of the registry with that root. */
  function SlotOf(spaces: seq<Option<Space>>, root: nat): (i: nat)
    ensures i <= |spaces|
    ensures i < |spaces| ==> spaces[i].Some? && spaces[i].value.root == root
    ensures forall j :: 0 <= j < i ==> spaces[j].None? || spaces[j].value.root != root
  {
    if spaces == [] || (spaces[0].Some? && spaces[0].value.root == root) then 0 else 1 + SlotOf(spaces[1..], root)
  }

  function RegisterSpace(k: Kernel, root: nat, region: nat): (Kernel, bool) {
    var i := FreeSlot(k.spaces);
    if i == |k.spaces| then (k, false)
    else (k.(spaces := k.spaces[i := Some(Space(root, region, []))]), true)
  }

  function ForgetSlot(o: Option<Space>, root: nat): Option<Space> {
    if o.Some? && o.value.root == root then None else o
  }

  function ForgetRoot(k: Kernel, root: nat): Kernel {
    k.(spaces := seq(|k.spaces|, i requires 0 <= i < |k.spaces| => ForgetSlot(k.spaces[i], root)))
  }

  // --- what the registry holds ---

  ghost predicate Registered(k: Kernel, root: nat) {
    exists i :: 0 <= i < |k.spaces| && k.spaces[i].Some? && k.spaces[i].value.root == root
  }

  /** Nothing but the registry differs. */
  predicate SameBut(k: Kernel, k': Kernel) {
    && |k'.spaces| == |k.spaces| && k'.budgets == k.budgets && k'.tables == k.tables
    && k'.frameCaps == k.frameCaps && k'.deviceCaps == k.deviceCaps
  }

  /** Slot `i`, the first that was free, holds the space with an empty log, and no other slot has changed. */
  ghost predicate EntersAt(k: Kernel, root: nat, region: nat, k': Kernel, i: nat) {
    && i < |k.spaces| == |k'.spaces| && k.spaces[i].None? && (forall j :: 0 <= j < i ==> k.spaces[j].Some?)
    && k'.spaces[i] == Some(Space(root, region, []))
    && forall j :: 0 <= j < |k.spaces| && j != i ==> k'.spaces[j] == k.spaces[j]
  }

  /** Registered if some slot is free, and refused, with nothing changed, if none is. */
  ghost predicate Enters(k: Kernel, root: nat, region: nat, k': Kernel, ok: bool) {
    && SameBut(k, k') && (ok <==> exists i :: 0 <= i < |k.spaces| && k.spaces[i].None?)
    && (if ok then Registered(k', root) && exists i: nat :: EntersAt(k, root, region, k', i) else k' == k)
  }

  lemma {:induction false} RegisterIs(k: Kernel, root: nat, region: nat)
    ensures Enters(k, root, region, RegisterSpace(k, root, region).0, RegisterSpace(k, root, region).1)
  {
    var i := FreeSlot(k.spaces);
    if i < |k.spaces| {
      var k' := RegisterSpace(k, root, region).0;
      assert k'.spaces[i].Some? && k'.spaces[i].value.root == root;
      assert EntersAt(k, root, region, k', i);
    }
  }

  /** Every slot that had the root is free, every other slot is as it was, and no slot has the root. */
  ghost predicate Forgets(k: Kernel, root: nat, k': Kernel) {
    && SameBut(k, k') && !Registered(k', root)
    && forall i :: 0 <= i < |k.spaces| ==>
         if k.spaces[i].Some? && k.spaces[i].value.root == root then k'.spaces[i].None? else k'.spaces[i] == k.spaces[i]
  }

  lemma {:induction false} ForgetIs(k: Kernel, root: nat)
    ensures Forgets(k, root, ForgetRoot(k, root))
  {
    var k' := ForgetRoot(k, root);
    forall i | 0 <= i < |k.spaces| ensures k'.spaces[i] == ForgetSlot(k.spaces[i], root) {
    }
  }

  function Budget(k: Kernel, region: nat): nat {
    if region in k.budgets then k.budgets[region] else 0
  }

  /** A record goes into an existing page if one has room, else into a page bought from the space's own region. */
  function RecordMapping(k: Kernel, phys: nat, root: nat, va: nat): (Kernel, bool) {
    var i := SlotOf(k.spaces, root);
    if i == |k.spaces| then (k, false)
    else
      var space := k.spaces[i].value;
      match Placed(space.pages, Entry(phys, va))
      case Some(pages) => (k.(spaces := k.spaces[i := Some(space.(pages := pages))]), true)
      case None =>
        if Budget(k, space.region) == 0 then (k, false)
        else
          (k.(spaces := k.spaces[i := Some(space.(pages := [[Entry(phys, va)]] + space.pages))],
              budgets := k.budgets[space.region := k.budgets[space.region] - 1]), true)
  }

  function Table(k: Kernel, root: nat): map<nat, nat> {
    if root in k.tables then k.tables[root] else map[]
  }

  function ErasedSlot(o: Option<Space>, phys: nat, spare: nat): Option<Space> {
    if o.Some? && o.value.root != spare then Some(o.value.(pages := Erased(o.value.pages, phys))) else o
  }

  /** The addresses the sweep unmaps in the space rooted at `root`. */
  function Swept(spaces: seq<Option<Space>>, phys: nat, spare: nat, root: nat): set<nat> {
    set i, va | 0 <= i < |spaces| && spaces[i].Some? && spaces[i].value.root == root && root != spare
                && va in VasOf(spaces[i].value.pages, phys) :: va
  }

  function UnmapEverywhere(k: Kernel, phys: nat, spare: nat): Kernel {
    k.(spaces := seq(|k.spaces|, i requires 0 <= i < |k.spaces| => ErasedSlot(k.spaces[i], phys, spare)),
       tables := map root | root in k.tables :: k.tables[root] - Swept(k.spaces, phys, spare, root))
  }

  /** Capabilities first, then mappings. */
  function RevokeFrame(k: Kernel, phys: nat): Kernel {
    UnmapEverywhere(k.(frameCaps := set c | c in k.frameCaps && c.1 != phys), phys, 0)
  }

  /** Everyone but the invoking thread loses its capability, every space but the invoker's its mapping. */
  function RevokeDevice(k: Kernel, phys: nat, thread: nat, root: nat): Kernel {
    UnmapEverywhere(k.(deviceCaps := set c | c in k.deviceCaps && (c.1 != phys || c.0 == thread)), phys, root)
  }

  /** Map a page and record it; a mapping that cannot be recorded is taken back. */
  function MapPage(k: Kernel, phys: nat, root: nat, va: nat): (Kernel, bool) {
    if va in Table(k, root) then (k, false)
    else
      var mapped := k.(tables := k.tables[root := Table(k, root)[va := phys]]);
      var (recorded, ok) := RecordMapping(mapped, phys, root, va);
      if ok then (recorded, true) else (k, false)
  }

  /** Teardown: the registry forgets the root before the space's tables go. */
  function DropSpace(k: Kernel, root: nat): Kernel {
    var forgot := ForgetRoot(k, root);
    forgot.(tables := forgot.tables - {root})
  }

  // --- what a log holds ---

  ghost predicate Has(pages: seq<Page>, e: Entry) {
    exists i :: 0 <= i < |pages| && e in pages[i]
  }

  predicate PagesOk(pages: seq<Page>) {
    forall i :: 0 <= i < |pages| ==> 0 < |pages[i]| <= LOG_ENTRIES
  }

  function LivePage(page: Page): (n: nat)
    ensures n <= |page|
  {
    if page == [] then 0 else (if page[0].phys == 0 then 0 else 1) + LivePage(page[1..])
  }

  /** How many records of the log are live. */
  function Live(pages: seq<Page>): nat {
    if pages == [] then 0 else LivePage(pages[0]) + Live(pages[1..])
  }

  lemma {:induction false} FilledHas(page: Page, e: Entry, x: Entry)
    requires HasHole(page) && x.phys != 0
    ensures x in Filled(page, e) <==> x == e || x in page
    ensures LivePage(Filled(page, e)) == LivePage(page) + if e.phys == 0 then 0 else 1
  {
    if page[0].phys == 0 {
      assert ([e] + page[1..])[1..] == page[1..];
      assert page == [page[0]] + page[1..];
    } else {
      assert HasHole(page[1..]) by {
        var j :| 0 <= j < |page| && page[j].phys == 0;
        assert page[1..][j - 1].phys == 0;
      }
      FilledHas(page[1..], e, x);
      assert page == [page[0]] + page[1..];
      assert Filled(page, e)[1..] == Filled(page[1..], e);
    }
  }

  lemma {:induction false} AppendedLive(page: Page, e: Entry)
    ensures LivePage(page + [e]) == LivePage(page) + if e.phys == 0 then 0 else 1
  {
    if page == [] {
      assert [e][1..] == [];
    } else {
      assert (page + [e])[1..] == page[1..] + [e];
      AppendedLive(page[1..], e);
    }
  }

  lemma {:induction false} NoHoleIsFull(page: Page)
    requires !HasHole(page)
    ensures LivePage(page) == |page|
  {
    if page != [] {
      assert page[0].phys != 0;
      forall j | 0 <= j < |page[1..]| ensures page[1..][j].phys != 0 {
        assert page[1..][j] == page[j + 1];
      }
      NoHoleIsFull(page[1..]);
    }
  }

  lemma {:induction false} HasCons(page: Page, rest: seq<Page>, x: Entry)
    ensures Has([page] + rest, x) <==> x in page || Has(rest, x)
  {
    var pages := [page] + rest;
    if i :| 0 <= i < |pages| && x in pages[i] {
      assert i == 0 || x in rest[i - 1];
    }
    if i :| 0 <= i < |rest| && x in rest[i] {
      assert x in pages[i + 1];
    }
    assert pages[0] == page;
  }

  /** A record that finds room adds one live entry and touches no other; a log without room is full to the last entry. */
  lemma {:induction false} PlacedIs(pages: seq<Page>, e: Entry, x: Entry)
    requires PagesOk(pages) && x.phys != 0
    ensures Placed(pages, e).Some? ==>
              var pages' := Placed(pages, e).value;
              && PagesOk(pages') && |pages'| == |pages|
              && (Has(pages', x) <==> x == e || Has(pages, x))
              && Live(pages') == Live(pages) + if e.phys == 0 then 0 else 1
    ensures Placed(pages, e).None? ==> Live(pages) == LOG_ENTRIES * |pages|
  {
    if pages != [] {
      assert pages == [pages[0]] + pages[1..];
      HasCons(pages[0], pages[1..], x);
      if HasHole(pages[0]) {
        FilledHas(pages[0], e, x);
        HasCons(Filled(pages[0], e), pages[1..], x);
      } else if |pages[0]| < LOG_ENTRIES {
        AppendedLive(pages[0], e);
        HasCons(pages[0] + [e], pages[1..], x);
      } else {
        NoHoleIsFull(pages[0]);
        PlacedIs(pages[1..], e, x);
        if Placed(pages[1..], e).Some? {
          HasCons(pages[0], Placed(pages[1..], e).value, x);
        }
      }
    }
  }

  lemma {:induction false} ErasedHas(pages: seq<Page>, phys: nat, x: Entry)
    requires x.phys != 0
    ensures Has(Erased(pages, phys), x) <==> Has(pages, x) && x.phys != phys
  {
    var r := Erased(pages, phys);
    if Has(r, x) {
      var i :| 0 <= i < |r| && x in r[i];
      var j :| 0 <= j < |r[i]| && r[i][j] == x;
      assert pages[i][j] == x;
    }
    if Has(pages, x) && x.phys != phys {
      var i :| 0 <= i < |pages| && x in pages[i];
      var j :| 0 <= j < |pages[i]| && pages[i][j] == x;
      assert r[i][j] == x;
    }
  }

  lemma {:induction false} ErasedPageLive(page: Page, phys: nat)
    ensures LivePage(ErasedPage(page, phys)) <= LivePage(page)
  {
    if page != [] {
      assert ErasedPage(page, phys)[1..] == ErasedPage(page[1..], phys);
      ErasedPageLive(page[1..], phys);
    }
  }

  lemma {:induction false} ErasedLive(pages: seq<Page>, phys: nat)
    ensures Live(Erased(pages, phys)) <= Live(pages)
  {
    if pages != [] {
      assert Erased(pages, phys)[1..] == Erased(pages[1..], phys);
      ErasedPageLive(pages[0], phys);
      ErasedLive(pages[1..], phys);
    }
  }

  lemma {:induction false} VasAre(pages: seq<Page>, phys: nat, va: nat)
    ensures va in VasOf(pages, phys) <==> Has(pages, Entry(phys, va))
  {
    if va in VasOf(pages, phys) {
      var i, j :| 0 <= i < |pages| && 0 <= j < |pages[i]| && pages[i][j].phys == phys && pages[i][j].va == va;
      assert pages[i][j] == Entry(phys, va);
    }
    if Has(pages, Entry(phys, va)) {
      var i :| 0 <= i < |pages| && Entry(phys, va) in pages[i];
      var j :| 0 <= j < |pages[i]| && pages[i][j] == Entry(phys, va);
    }
  }
}
