/**
 What each edit of the tree does to the part a client can see: which directories' entries it may
 touch, which nodes it takes away, and that every other directory keeps its place under its parent.
 */
module Visible {
  import opened Basics
  import opened Engine
  import opened Namespace
  import opened AttrStore
  import opened Store

  ghost predicate KidOf(nodes: map<Id, Node>, p: Id, x: Id) {
    exists n :: Named(nodes, p, n, x)
  }

  /** The entries of a directory, less the root's reserved one. */
  function VisibleEntries(nodes: map<Id, Node>, y: Id): map<Bytes, Id> {
    if !IsDir(nodes, y) then map[]
    else if y == ROOT then nodes[y].entries - {STORE_DIR}
    else nodes[y].entries
  }

  /** Every visible directory that is still there keeps its parent. */
  ghost predicate KidsKept(nodes: map<Id, Node>, nodes': map<Id, Node>) {
    forall p, x :: KidOf(nodes, p, x) && IsDir(nodes, x) && !Hidden(nodes, x) && x in nodes' ==> KidOf(nodes', p, x)
  }

  /** Every visible node outside `lost` that has a name still has one. */
  ghost predicate NamesHeld(nodes: map<Id, Node>, nodes': map<Id, Node>, lost: set<Id>) {
    forall y :: HasName(nodes, y) && !Hidden(nodes, y) && y !in lost ==> HasName(nodes', y)
  }

  /** The visible part changed only at `touched`, only `lost` lost a name, and what is gone held no names. */
  ghost predicate Effect(nodes: map<Id, Node>, nodes': map<Id, Node>, touched: set<Id>, lost: set<Id>) {
    && (forall y :: y in nodes && y in nodes' ==> (Hidden(nodes, y) <==> Hidden(nodes', y)))
    && (forall y :: y in nodes && y in nodes' && !Hidden(nodes, y) ==> nodes'[y].Dir? == nodes[y].Dir?)
    && (forall y :: y in nodes && y in nodes' && !Hidden(nodes, y) && y !in touched && y != ROOT ==> nodes'[y] == nodes[y])
    && (forall y :: !Hidden(nodes, y) && !Hidden(nodes', y) && y !in touched ==>
          VisibleEntries(nodes', y) == VisibleEntries(nodes, y))
    && (forall y :: y in touched && y in nodes ==> y in nodes')
    && KidsKept(nodes, nodes')
    && NamesHeld(nodes, nodes', lost)
  }

  /** An edit that leaves the store alone. */
  ghost predicate VisibleChange(nodes: map<Id, Node>, nodes': map<Id, Node>, touched: set<Id>, gone: set<Id>, lost: set<Id>) {
    && SameStore(nodes, nodes')
    && (forall y :: y in nodes && y !in gone ==> y in nodes' && nodes'[y].Dir? == nodes[y].Dir?)
    && (forall y :: y in nodes && y !in touched && y !in gone ==> nodes'[y] == nodes[y])
    && (forall y :: y in gone ==> y !in nodes' && VisibleEntries(nodes, y) == map[])
    && (forall y :: y !in nodes ==> VisibleEntries(nodes', y) == map[])
    && touched !! gone
    && KidsKept(nodes, nodes')
    && NamesHeld(nodes, nodes', lost)
  }

  lemma {:induction false} ChangeIsEffect(nodes: map<Id, Node>, nodes': map<Id, Node>, touched: set<Id>, gone: set<Id>, lost: set<Id>)
    requires VisibleChange(nodes, nodes', touched, gone, lost) && IsDir(nodes, ROOT) && IsDir(nodes', ROOT)
    ensures Effect(nodes, nodes', touched, lost)
    ensures StoreOk(nodes) ==> StoreOk(nodes')
    ensures forall id :: Blob(nodes', id) == Blob(nodes, id)
  {
    SameStoreKeeps(nodes, nodes');
  }

  lemma {:induction false} EffectRefl(nodes: map<Id, Node>, touched: set<Id>, lost: set<Id>)
    ensures Effect(nodes, nodes, touched, lost)
  {
  }

  lemma {:induction false} ParentIsVisible(nodes: map<Id, Node>, p: Id, n: Bytes, x: Id)
    requires Tree(nodes) && StoreOk(nodes) && Named(nodes, p, n, x) && !Hidden(nodes, x)
    ensures !Hidden(nodes, p) && (p == ROOT ==> n != STORE_DIR)
  {
    assert p == ROOT && n == STORE_DIR ==> IsStore(nodes, x);
    forall st | IsStore(nodes, st) ensures p != st && forall m :: !Named(nodes, st, m, p) {
      assert forall m :: Named(nodes, st, m, p) ==> IsFile(nodes, p);
    }
  }

  /** A store transaction touches nothing visible. */
  lemma {:induction false} StoreEditIsEffect(nodes: map<Id, Node>, nodes': map<Id, Node>)
    requires Tree(nodes) && StoreOk(nodes) && Tree(nodes') && SameVisible(nodes, nodes')
    ensures Effect(nodes, nodes', {}, {})
  {
    forall y | !Hidden(nodes, y) && !Hidden(nodes', y)
      ensures VisibleEntries(nodes', y) == VisibleEntries(nodes, y)
    {
      assert y in nodes <==> y in nodes';
    }
    forall p, x | KidOf(nodes, p, x) && !Hidden(nodes, x) ensures KidOf(nodes', p, x) {
      StoreEditKeepsKid(nodes, nodes', p, x);
    }
    forall y | HasName(nodes, y) && !Hidden(nodes, y) ensures HasName(nodes', y) {
      var p, n :| Named(nodes, p, n, y);
      assert KidOf(nodes, p, y) && KidOf(nodes', p, y);
    }
  }

  lemma {:induction false} StoreEditKeepsKid(nodes: map<Id, Node>, nodes': map<Id, Node>, p: Id, x: Id)
    requires Tree(nodes) && StoreOk(nodes) && SameVisible(nodes, nodes')
    requires KidOf(nodes, p, x) && !Hidden(nodes, x)
    ensures KidOf(nodes', p, x)
  {
    var n :| Named(nodes, p, n, x);
    ParentIsVisible(nodes, p, n, x);
    if p == ROOT {
      assert (nodes[ROOT].entries - {STORE_DIR})[n] == x;
      assert n in nodes'[ROOT].entries - {STORE_DIR};
    }
    assert Named(nodes', p, n, x);
  }

  lemma {:induction false} EffectCompose(a: map<Id, Node>, b: map<Id, Node>, c: map<Id, Node>, touched: set<Id>, lost: set<Id>)
    requires Effect(a, b, touched, lost) && Effect(b, c, {}, {}) && SameVisible(b, c) && c.Keys <= b.Keys
    requires (forall y :: Hidden(a, y) <==> Hidden(b, y)) && forall y :: y in touched ==> !Hidden(a, y)
    ensures Effect(a, c, touched, lost)
  {
    forall y | y in touched && y in a ensures y in c {
      assert y in b && !Hidden(b, y);
    }
    forall p, x | KidOf(a, p, x) && IsDir(a, x) && !Hidden(a, x) && x in c ensures KidOf(c, p, x) {
      assert KidOf(b, p, x) && IsDir(b, x) && !Hidden(b, x);
    }
  }

  // --- the edits the verbs make ---

  lemma {:induction false} AddVisible(nodes: map<Id, Node>, p: Id, n: Bytes, x: Id, node: Node)
    requires Tree(nodes) && IsDir(nodes, p) && x !in nodes && !Hidden(nodes, p) && n != STORE_DIR
    requires (node.Dir? ==> node.entries == map[]) && forall y :: !Named(nodes, p, n, y)
    ensures var nodes' := AddEntry(nodes[x := node], p, n, x);
            VisibleChange(nodes, nodes', {p}, {}, {}) && x in nodes' && nodes'[x] == node && !Hidden(nodes', x)
  {
    var nodes' := AddEntry(nodes[x := node], p, n, x);
    assert !Hidden(nodes, x);
    assert SameStore(nodes, nodes') && KidsKept(nodes, nodes') && NamesHeld(nodes, nodes', {}) by {
      NamedAfterFresh(nodes, x, node);
      NamedAfterAdd(nodes[x := node], p, n, x);
      VisibleEdit(nodes, nodes', {p, x});
      NamesKeepKids(nodes, nodes', {});
    }
    SameStoreKeeps(nodes, nodes');
  }

  /** Kept names keep directories in place and nodes named. */
  lemma {:induction false} NamesKeepKids(nodes: map<Id, Node>, nodes': map<Id, Node>, lost: set<Id>)
    requires forall q, m, y :: Named(nodes, q, m, y) && y !in lost ==> Named(nodes', q, m, y)
    requires forall y :: y in lost && IsDir(nodes, y) ==> y !in nodes'
    ensures KidsKept(nodes, nodes') && NamesHeld(nodes, nodes', lost)
  {
    forall p, x | KidOf(nodes, p, x) && IsDir(nodes, x) && x in nodes' ensures KidOf(nodes', p, x) {
      var n :| Named(nodes, p, n, x);
      assert Named(nodes', p, n, x);
    }
    forall y | HasName(nodes, y) && y !in lost ensures HasName(nodes', y) {
      var q, m :| Named(nodes, q, m, y);
      assert Named(nodes', q, m, y);
    }
  }

  lemma {:induction false} CreateVisible(fs: Fs, p: Id, n: Bytes, isDir: bool, hint: Id)
    requires FsOk(fs) && CreateNode(fs, p, n, isDir, hint).Ok? && !Hidden(fs.nodes, p) && n != STORE_DIR
    ensures var nodes' := CreateNode(fs, p, n, isDir, hint).value.0.nodes;
            && VisibleChange(fs.nodes, nodes', {p}, {}, {})
            && hint in nodes' && nodes'[hint].Dir? == isDir && !Hidden(nodes', hint)
  {
    CreateForm(fs, p, n, isDir, hint);
    AddVisible(fs.nodes, p, n, hint, if isDir then Dir(1, map[]) else File(1, []));
  }

  /** A file loses its name but stays. */
  lemma {:induction false} DropVisible(nodes: map<Id, Node>, p: Id, n: Bytes, x: Id)
    requires Tree(nodes) && Named(nodes, p, n, x) && !Hidden(nodes, p) && n != STORE_DIR && IsFile(nodes, x)
    ensures VisibleChange(nodes, DropEntry(nodes, p, n), {p}, {}, {x})
  {
    var nodes' := DropEntry(nodes, p, n);
    NamedAfterDrop(nodes, p, n);
    VisibleEdit(nodes, nodes', {p});
    NamesKeepKids(nodes, nodes', {x});
  }

  /** A node without names in it goes altogether. */
  lemma {:induction false} FreeVisible(nodes: map<Id, Node>, p: Id, n: Bytes, x: Id)
    requires Tree(nodes) && Named(nodes, p, n, x) && !Hidden(nodes, p) && n != STORE_DIR
    requires IsDir(nodes, x) ==> nodes[x].entries == map[]
    ensures VisibleChange(nodes, DropEntry(nodes, p, n) - {x}, {p}, {x}, {x})
  {
    var nodes' := DropEntry(nodes, p, n) - {x};
    FoundIsVisible(nodes, p, n, x);
    NotOwnParent(nodes, p, n, x);
    NamedAfterDrop(nodes, p, n);
    NamedAfterFree(DropEntry(nodes, p, n), {x});
    assert x != ROOT;
    VisibleEdit(nodes, nodes', {p, x});
    NamesKeepKids(nodes, nodes', {x});
  }

  lemma {:induction false} RemoveVisible(fs: Fs, p: Id, n: Bytes, wantDir: bool)
    requires FsOk(fs) && RemoveNode(fs, p, n, wantDir).Ok? && !Hidden(fs.nodes, p) && n != STORE_DIR
    ensures var (fs', gone) := RemoveNode(fs, p, n, wantDir).value;
            && gone.Some? && Named(fs.nodes, p, n, gone.value) && IsDir(fs.nodes, gone.value) == wantDir
            && fs'.usages == fs.usages
            && VisibleChange(fs.nodes, fs'.nodes, {p}, if Usage(fs, gone.value) > 0 then {} else {gone.value}, {gone.value})
  {
    RemoveForm(fs, p, n, wantDir);
    var x := fs.nodes[p].entries[n];
    if Usage(fs, x) > 0 {
      DropVisible(fs.nodes, p, n, x);
    } else {
      FreeVisible(fs.nodes, p, n, x);
    }
  }

  lemma {:induction false} MoveKeepsKids(nodes: map<Id, Node>, sp: Id, sn: Bytes, dp: Id, dn: Bytes, x: Id)
    requires Tree(nodes) && Named(nodes, sp, sn, x) && IsDir(nodes, dp)
    requires (IsDir(nodes, x) ==> sp == dp) && forall y :: !Named(nodes, dp, dn, y)
    ensures KidsKept(nodes, Moved(nodes, sp, sn, dp, dn, x)) && NamesHeld(nodes, Moved(nodes, sp, sn, dp, dn, x), {})
  {
    var nodes' := Moved(nodes, sp, sn, dp, dn, x);
    NamedAfterMove(nodes, sp, sn, dp, dn, x);
    forall p, y | KidOf(nodes, p, y) && IsDir(nodes, y) ensures KidOf(nodes', p, y) {
      var n :| Named(nodes, p, n, y);
      assert if y == x then Named(nodes', p, dn, y) else Named(nodes', p, n, y);
    }
    forall y | HasName(nodes, y) ensures HasName(nodes', y) {
      var q, m :| Named(nodes, q, m, y);
      assert if y == x then Named(nodes', dp, dn, y) else Named(nodes', q, m, y);
    }
  }

  /** A move touches the entries of two directories and nothing else. */
  lemma {:induction false} MoveFrame(nodes: map<Id, Node>, sp: Id, sn: Bytes, dp: Id, dn: Bytes, x: Id)
    requires IsDir(nodes, sp) && IsDir(nodes, dp)
    ensures var nodes' := Moved(nodes, sp, sn, dp, dn, x);
            && nodes'.Keys == nodes.Keys
            && (forall y :: y in nodes ==> nodes'[y].Dir? == nodes[y].Dir?)
            && (forall y :: y in nodes && y != sp && y != dp ==> nodes'[y] == nodes[y])
            && (sn != STORE_DIR && dn != STORE_DIR ==> forall st :: IsStore(nodes, st) <==> IsStore(nodes', st))
  {
  }

  lemma {:induction false} MoveVisible(nodes: map<Id, Node>, sp: Id, sn: Bytes, dp: Id, dn: Bytes, x: Id)
    requires Tree(nodes) && Named(nodes, sp, sn, x) && IsDir(nodes, dp)
    requires !Hidden(nodes, sp) && !Hidden(nodes, dp) && sn != STORE_DIR && dn != STORE_DIR
    requires (IsDir(nodes, x) ==> sp == dp) && forall y :: !Named(nodes, dp, dn, y)
    ensures VisibleChange(nodes, Moved(nodes, sp, sn, dp, dn, x), {sp, dp}, {}, {})
  {
    var nodes' := Moved(nodes, sp, sn, dp, dn, x);
    MoveFrame(nodes, sp, sn, dp, dn, x);
    assert SameStore(nodes, nodes') by {
      VisibleEdit(nodes, nodes', {sp, dp});
    }
    MoveKeepsKids(nodes, sp, sn, dp, dn, x);
  }

  lemma {:induction false} ChangeThenMove(a: map<Id, Node>, b: map<Id, Node>, c: map<Id, Node>, t: set<Id>, t': set<Id>, gone: set<Id>, lost: set<Id>)
    requires VisibleChange(a, b, t, gone, lost) && VisibleChange(b, c, t', {}, {}) && b.Keys == c.Keys
    requires IsDir(a, ROOT) && IsDir(b, ROOT) && (forall y :: y in t' ==> y in a) && t' !! gone
    ensures VisibleChange(a, c, t + t', gone, lost)
  {
    SameStoreKeeps(a, b);
    forall st, n, x | IsStore(a, st) && Named(a, st, n, x) ensures x in c && c[x] == a[x] {
      assert Named(b, st, n, x);
    }
    forall p, x | KidOf(a, p, x) && IsDir(a, x) && !Hidden(a, x) && x in c ensures KidOf(c, p, x) {
      assert KidOf(b, p, x) && IsDir(b, x);
    }
    forall y | y !in a ensures VisibleEntries(c, y) == map[] {
      assert VisibleEntries(b, y) == map[];
    }
  }

  lemma {:induction false} MoveAfterClear(nodes: map<Id, Node>, mid: map<Id, Node>, sp: Id, sn: Bytes, dp: Id, dn: Bytes, x: Id, gone: set<Id>, lost: set<Id>)
    requires IsDir(nodes, ROOT) && VisibleChange(nodes, mid, {dp}, gone, lost) && sp in nodes && dp in nodes
    requires Tree(mid) && Named(mid, sp, sn, x) && IsDir(mid, dp)
    requires !Hidden(nodes, sp) && !Hidden(nodes, dp) && sn != STORE_DIR && dn != STORE_DIR
    requires (IsDir(mid, x) ==> sp == dp) && forall y :: !Named(mid, dp, dn, y)
    ensures VisibleChange(nodes, Moved(mid, sp, sn, dp, dn, x), {sp, dp}, gone, lost)
  {
    assert !Hidden(mid, sp) && !Hidden(mid, dp) by {
      SameStoreKeeps(nodes, mid);
    }
    MoveVisible(mid, sp, sn, dp, dn, x);
    ChangeThenMove(nodes, mid, Moved(mid, sp, sn, dp, dn, x), {dp}, {sp, dp}, gone, lost);
    assert {dp} + {sp, dp} == {sp, dp};
  }

  lemma {:induction false} DataVisible(nodes: map<Id, Node>, x: Id, data: Bytes)
    requires Tree(nodes) && IsFile(nodes, x) && !Hidden(nodes, x)
    ensures VisibleChange(nodes, nodes[x := nodes[x].(data := data)], {x}, {}, {})
  {
    var node := nodes[x].(data := data);
    NamedAfterData(nodes, x, node);
    VisibleEdit(nodes, nodes[x := node], {x});
    NamesKeepKids(nodes, nodes[x := node], {});
  }

  /** The last close of a nameless file: it goes, and nothing else changes. */
  lemma {:induction false} ReapVisible(nodes: map<Id, Node>, x: Id)
    requires Tree(nodes) && IsFile(nodes, x) && !Hidden(nodes, x) && !HasName(nodes, x)
    ensures VisibleChange(nodes, nodes - {x}, {}, {x}, {})
  {
    NamedAfterFree(nodes, {x});
    VisibleEdit(nodes, nodes - {x}, {x});
    NamesKeepKids(nodes, nodes - {x}, {});
  }
}
