/**
 The shape of the node graph: every live directory other than the root has exactly one name, no node
 has two, and a rank falls towards the root along every parent entry, so the graph is a tree. Every
 engine operation the file service uses keeps that shape.
 */
module Namespace {
  import opened Basics
  import opened Engine

  ghost predicate HasName(nodes: map<Id, Node>, x: Id) {
    exists p, n :: Named(nodes, p, n, x)
  }

  predicate IsDir(nodes: map<Id, Node>, x: Id) {
    x in nodes && nodes[x].Dir?
  }

  predicate IsFile(nodes: map<Id, Node>, x: Id) {
    x in nodes && nodes[x].File?
  }

  /** Ranks grow from a directory to the directories in it. */
  ghost predicate Ranked(nodes: map<Id, Node>, rank: map<Id, nat>) {
    forall p, n, x :: Named(nodes, p, n, x) && IsDir(nodes, x) ==> p in rank && x in rank && rank[p] < rank[x]
  }

  ghost predicate Tree(nodes: map<Id, Node>) {
    && IsDir(nodes, ROOT)
    && (forall x :: x in nodes ==> 0 < x < ID_LIMIT && nodes[x].links == 1)
    && (forall p, n, x :: Named(nodes, p, n, x) ==> x in nodes && x != ROOT)
    && (forall p, n, q, m, x :: Named(nodes, p, n, x) && Named(nodes, q, m, x) ==> p == q && n == m)
    && (forall x :: IsDir(nodes, x) && x != ROOT ==> HasName(nodes, x))
    && exists rank :: Ranked(nodes, rank)
  }

  /** The tree, the release list and the usage table agree: a nameless node is a queued file something uses. */
  ghost predicate Books(fs: Fs) {
    && (forall x :: x in fs.nodes ==> x == ROOT || HasName(fs.nodes, x) || x in fs.release)
    && (forall x :: x in fs.release ==> IsFile(fs.nodes, x) && !HasName(fs.nodes, x) && Usage(fs, x) > 0)
    && (forall x :: x in fs.usages ==> IsFile(fs.nodes, x) && fs.usages[x] > 0)
  }

  ghost predicate FsOk(fs: Fs) {
    Tree(fs.nodes) && Books(fs)
  }

  // --- what each edit of the entries does to the naming relation ---

  lemma {:induction false} NamedAfterAdd(nodes: map<Id, Node>, p: Id, n: Bytes, x: Id)
    requires IsDir(nodes, p)
    ensures forall q, m, y :: Named(AddEntry(nodes, p, n, x), q, m, y) <==>
                              if q == p && m == n then y == x else Named(nodes, q, m, y)
  {
  }

  lemma {:induction false} NamedAfterDrop(nodes: map<Id, Node>, p: Id, n: Bytes)
    requires IsDir(nodes, p)
    ensures forall q, m, y :: Named(DropEntry(nodes, p, n), q, m, y) <==>
                              Named(nodes, q, m, y) && !(q == p && m == n)
  {
  }

  lemma {:induction false} NamedAfterFree(nodes: map<Id, Node>, gone: set<Id>)
    ensures forall q, m, y :: Named(nodes - gone, q, m, y) <==> Named(nodes, q, m, y) && q !in gone
  {
  }

  lemma {:induction false} NamedAfterFresh(nodes: map<Id, Node>, x: Id, node: Node)
    requires x !in nodes && (node.Dir? ==> node.entries == map[])
    ensures forall q, m, y :: Named(nodes[x := node], q, m, y) <==> Named(nodes, q, m, y)
  {
  }

  lemma {:induction false} NamedAfterData(nodes: map<Id, Node>, x: Id, node: Node)
    requires IsFile(nodes, x) && node.File?
    ensures forall q, m, y :: Named(nodes[x := node], q, m, y) <==> Named(nodes, q, m, y)
  {
  }

  /** Nothing is its own parent. */
  lemma {:induction false} NotOwnParent(nodes: map<Id, Node>, p: Id, n: Bytes, x: Id)
    requires Tree(nodes) && Named(nodes, p, n, x)
    ensures p != x
  {
    var rank :| Ranked(nodes, rank);
  }

  // --- create ---

  lemma {:induction false} TreeAfterCreate(nodes: map<Id, Node>, p: Id, n: Bytes, x: Id, node: Node)
    requires Tree(nodes) && IsDir(nodes, p)
    requires 0 < x < ID_LIMIT && x !in nodes && node.links == 1 && (node.Dir? ==> node.entries == map[])
    requires forall y :: !Named(nodes, p, n, y)
    ensures Tree(AddEntry(nodes[x := node], p, n, x))
  {
    var added := AddEntry(nodes[x := node], p, n, x);
    NamedAfterFresh(nodes, x, node);
    NamedAfterAdd(nodes[x := node], p, n, x);
    assert Named(added, p, n, x);
    forall y | IsDir(added, y) && y != ROOT
      ensures HasName(added, y)
    {
      if y != x {
        assert IsDir(nodes, y) && HasName(nodes, y);
        var q, m :| Named(nodes, q, m, y);
        assert Named(added, q, m, y);
      }
    }
    var rank :| Ranked(nodes, rank);
    var above := if p in rank then rank[p] else 0;
    var ranks := rank[p := above][x := above + 1];
    forall q, m, y | Named(added, q, m, y) && IsDir(added, y)
      ensures q in ranks && y in ranks && ranks[q] < ranks[y]
    {
      if !(q == p && m == n) {
        assert Named(nodes, q, m, y) && IsDir(nodes, y);
      }
    }
    assert Ranked(added, ranks);
    forall q, m, y | Named(added, q, m, y)
      ensures y in added && y != ROOT && if y == x then q == p && m == n else Named(nodes, q, m, y)
    {
      assert (q == p && m == n) || Named(nodes, q, m, y);
    }
  }

  /** A creation adds one name for one new node, and nothing else. */
  lemma {:induction false} CreateForm(fs: Fs, p: Id, n: Bytes, isDir: bool, hint: Id)
    requires CreateNode(fs, p, n, isDir, hint).Ok? && (forall q, m, y :: Named(fs.nodes, q, m, y) ==> y in fs.nodes)
    ensures IsDir(fs.nodes, p) && FreeId(fs, hint) && CreateNode(fs, p, n, isDir, hint).value.1 == hint
    ensures forall y :: !Named(fs.nodes, p, n, y)
    ensures var nodes' := CreateNode(fs, p, n, isDir, hint).value.0.nodes;
            && (forall q, m, y :: Named(nodes', q, m, y) <==> if q == p && m == n then y == hint else Named(fs.nodes, q, m, y))
            && (forall y :: HasName(nodes', y) <==> y == hint || HasName(fs.nodes, y))
  {
    var made := if isDir then Dir(1, map[]) else File(1, []);
    var nodes' := CreateNode(fs, p, n, isDir, hint).value.0.nodes;
    assert forall y :: !Named(fs.nodes, p, n, y);
    NamedAfterFresh(fs.nodes, hint, made);
    NamedAfterAdd(fs.nodes[hint := made], p, n, hint);
    NamesKept(fs.nodes, nodes');
    assert Named(nodes', p, n, hint);
    forall y | HasName(nodes', y) ensures y == hint || HasName(fs.nodes, y) {
      var q, m :| Named(nodes', q, m, y);
      assert y == hint || Named(fs.nodes, q, m, y);
    }
  }

  lemma {:induction false} CreateKeepsOk(fs: Fs, p: Id, n: Bytes, isDir: bool, hint: Id)
    requires FsOk(fs) && CreateNode(fs, p, n, isDir, hint).Ok?
    ensures FsOk(CreateNode(fs, p, n, isDir, hint).value.0)
  {
    CreateForm(fs, p, n, isDir, hint);
    TreeAfterCreate(fs.nodes, p, n, hint, if isDir then Dir(1, map[]) else File(1, []));
    BooksAfterCreate(fs, CreateNode(fs, p, n, isDir, hint).value.0.nodes, hint);
  }

  lemma {:induction false} BooksAfterCreate(fs: Fs, nodes: map<Id, Node>, x: Id)
    requires Books(fs) && x !in fs.nodes && nodes.Keys == fs.nodes.Keys + {x}
    requires forall y :: y != x ==> (IsFile(nodes, y) <==> IsFile(fs.nodes, y))
    requires forall y :: HasName(nodes, y) <==> y == x || HasName(fs.nodes, y)
    ensures Books(fs.(nodes := nodes))
  {
  }

  /** Names that are kept keep their nodes named. */
  lemma {:induction false} NamesKept(nodes: map<Id, Node>, nodes': map<Id, Node>)
    requires forall q, m, y :: Named(nodes, q, m, y) ==> Named(nodes', q, m, y)
    ensures forall y :: HasName(nodes, y) ==> HasName(nodes', y)
  {
    forall y | HasName(nodes, y) ensures HasName(nodes', y) {
      var q, m :| Named(nodes, q, m, y);
      assert Named(nodes', q, m, y);
    }
  }

  // --- remove ---

  /** The one name of `x` goes; nobody else loses theirs. */
  lemma {:induction false} NameDropped(nodes: map<Id, Node>, p: Id, n: Bytes, x: Id)
    requires Tree(nodes) && Named(nodes, p, n, x)
    ensures !HasName(DropEntry(nodes, p, n), x)
    ensures forall y :: y != x ==> (HasName(DropEntry(nodes, p, n), y) <==> HasName(nodes, y))
  {
    var nodes' := DropEntry(nodes, p, n);
    NamedAfterDrop(nodes, p, n);
    forall y | y != x && HasName(nodes, y) ensures HasName(nodes', y) {
      var q, m :| Named(nodes, q, m, y);
      assert Named(nodes', q, m, y);
    }
    forall y | HasName(nodes', y) ensures HasName(nodes, y) {
      var q, m :| Named(nodes', q, m, y);
      assert Named(nodes, q, m, y);
    }
  }

  /** Taking the name of a file away leaves a tree, with the file still live in it. */
  lemma {:induction false} TreeAfterDrop(nodes: map<Id, Node>, p: Id, n: Bytes, x: Id)
    requires Tree(nodes) && Named(nodes, p, n, x) && IsFile(nodes, x)
    ensures Tree(DropEntry(nodes, p, n))
  {
    NamedAfterDrop(nodes, p, n);
    NameDropped(nodes, p, n, x);
    var rank :| Ranked(nodes, rank);
    assert Ranked(DropEntry(nodes, p, n), rank);
  }

  /** Taking a file or an empty directory out of the tree altogether leaves a tree. */
  lemma {:induction false} TreeAfterFree(nodes: map<Id, Node>, p: Id, n: Bytes, x: Id)
    requires Tree(nodes) && Named(nodes, p, n, x)
    requires IsDir(nodes, x) ==> nodes[x].entries == map[]
    ensures Tree(DropEntry(nodes, p, n) - {x})
    ensures forall q, m, y :: Named(DropEntry(nodes, p, n) - {x}, q, m, y) <==>
                              Named(nodes, q, m, y) && !(q == p && m == n)
    ensures forall y :: HasName(DropEntry(nodes, p, n) - {x}, y) <==> y != x && HasName(nodes, y)
  {
    var dropped := DropEntry(nodes, p, n);
    var nodes' := dropped - {x};
    NotOwnParent(nodes, p, n, x);
    NamedAfterDrop(nodes, p, n);
    NamedAfterFree(dropped, {x});
    NameDropped(nodes, p, n, x);
    NamesKept(dropped, nodes');
    NamesKept(nodes', dropped);
    var rank :| Ranked(nodes, rank);
    assert Ranked(nodes', rank);
  }

  /** A removal that succeeds takes the last link, and frees or queues the node. */
  lemma {:induction false} RemoveForm(fs: Fs, p: Id, n: Bytes, wantDir: bool)
    requires FsOk(fs) && RemoveNode(fs, p, n, wantDir).Ok?
    ensures Named(fs.nodes, p, n, fs.nodes[p].entries[n])
    ensures var x := fs.nodes[p].entries[n];
            && IsDir(fs.nodes, x) == wantDir
            && (wantDir ==> fs.nodes[x].entries == map[])
            && RemoveNode(fs, p, n, wantDir).value == (ReleaseNode(fs.(nodes := DropEntry(fs.nodes, p, n)), x), Some(x))
  {
    assert Named(fs.nodes, p, n, fs.nodes[p].entries[n]);
  }

  lemma {:induction false} BooksAfterQueue(fs: Fs, nodes: map<Id, Node>, x: Id)
    requires Books(fs) && Usage(fs, x) > 0 && IsFile(nodes, x) && nodes.Keys == fs.nodes.Keys
    requires forall y :: IsFile(nodes, y) <==> IsFile(fs.nodes, y)
    requires !HasName(nodes, x) && forall y :: y != x ==> (HasName(nodes, y) <==> HasName(fs.nodes, y))
    ensures Books(fs.(nodes := nodes, release := fs.release + {x}))
  {
  }

  lemma {:induction false} BooksAfterFree(fs: Fs, nodes: map<Id, Node>, x: Id)
    requires Books(fs) && Usage(fs, x) == 0 && nodes.Keys == fs.nodes.Keys - {x}
    requires forall y :: y != x ==> (IsFile(nodes, y) <==> IsFile(fs.nodes, y))
    requires forall y :: HasName(nodes, y) <==> y != x && HasName(fs.nodes, y)
    ensures Books(fs.(nodes := nodes))
  {
  }

  lemma {:induction false} RemoveKeepsOk(fs: Fs, p: Id, n: Bytes, wantDir: bool)
    requires FsOk(fs) && RemoveNode(fs, p, n, wantDir).Ok?
    ensures FsOk(RemoveNode(fs, p, n, wantDir).value.0)
  {
    RemoveForm(fs, p, n, wantDir);
    var x := fs.nodes[p].entries[n];
    NotOwnParent(fs.nodes, p, n, x);
    NameDropped(fs.nodes, p, n, x);
    if Usage(fs, x) > 0 {
      TreeAfterDrop(fs.nodes, p, n, x);
      BooksAfterQueue(fs, DropEntry(fs.nodes, p, n), x);
    } else {
      TreeAfterFree(fs.nodes, p, n, x);
      BooksAfterFree(fs, DropEntry(fs.nodes, p, n) - {x}, x);
    }
  }

  // --- rename ---

  function Moved(nodes: map<Id, Node>, sp: Id, sn: Bytes, dp: Id, dn: Bytes, x: Id): map<Id, Node>
    requires IsDir(nodes, sp) && IsDir(nodes, dp)
  {
    DropEntry(AddEntry(nodes, dp, dn, x), sp, sn)
  }

  lemma {:induction false} NamedAfterMove(nodes: map<Id, Node>, sp: Id, sn: Bytes, dp: Id, dn: Bytes, x: Id)
    requires IsDir(nodes, sp) && IsDir(nodes, dp) && !(sp == dp && sn == dn)
    ensures forall q, m, y :: Named(Moved(nodes, sp, sn, dp, dn, x), q, m, y) <==>
                              if q == dp && m == dn then y == x
                              else Named(nodes, q, m, y) && !(q == sp && m == sn)
  {
    NamedAfterAdd(nodes, dp, dn, x);
    NamedAfterDrop(AddEntry(nodes, dp, dn, x), sp, sn);
  }

  /** A directory moves only within its parent, so ranks need not change: no ancestry walk is needed. */
  lemma {:induction false} TreeAfterMove(nodes: map<Id, Node>, sp: Id, sn: Bytes, dp: Id, dn: Bytes, x: Id)
    requires Tree(nodes) && Named(nodes, sp, sn, x) && IsDir(nodes, dp)
    requires IsDir(nodes, x) ==> sp == dp
    requires forall y :: !Named(nodes, dp, dn, y)
    ensures Tree(Moved(nodes, sp, sn, dp, dn, x))
    ensures forall y :: HasName(Moved(nodes, sp, sn, dp, dn, x), y) <==> HasName(nodes, y)
  {
    var nodes' := Moved(nodes, sp, sn, dp, dn, x);
    NamedAfterMove(nodes, sp, sn, dp, dn, x);
    assert Named(nodes', dp, dn, x);
    forall y | HasName(nodes, y) ensures HasName(nodes', y) {
      if y != x {
        var q, m :| Named(nodes, q, m, y);
        assert Named(nodes', q, m, y);
      }
    }
    forall y | HasName(nodes', y) ensures HasName(nodes, y) {
      var q, m :| Named(nodes', q, m, y);
      assert y == x || Named(nodes, q, m, y);
    }
    RanksAfterMove(nodes, sp, sn, dp, dn, x);
  }

  lemma {:induction false} RanksAfterMove(nodes: map<Id, Node>, sp: Id, sn: Bytes, dp: Id, dn: Bytes, x: Id)
    requires Tree(nodes) && Named(nodes, sp, sn, x) && IsDir(nodes, dp)
    requires IsDir(nodes, x) ==> sp == dp
    requires !(sp == dp && sn == dn)
    ensures exists rank :: Ranked(Moved(nodes, sp, sn, dp, dn, x), rank)
  {
    NamedAfterMove(nodes, sp, sn, dp, dn, x);
    var rank :| Ranked(nodes, rank);
    assert Ranked(Moved(nodes, sp, sn, dp, dn, x), rank);
  }

  /** What a replacing or plain rename makes of the destination before the move. */
  function Cleared(fs: Fs, dp: Id, dn: Bytes): Fs {
    var found := FindNode(fs, dp, dn);
    if found.Ok? then ReleaseNode(fs.(nodes := DropEntry(fs.nodes, dp, dn)), found.value) else fs
  }

  /** `rename_node` under two names and back is one move of one name. */
  lemma {:induction false} RenameForm(fs: Fs, sp: Id, sn: Bytes, dp: Id, dn: Bytes)
    requires FsOk(fs) && RenameNode(fs, sp, sn, dp, dn).Ok?
    requires FindNode(fs, dp, dn) != FindNode(fs, sp, sn)
    requires FindNode(fs, sp, sn).Ok?
    requires IsDir(fs.nodes, FindNode(fs, sp, sn).value) ==> sp == dp
    ensures var x := FindNode(fs, sp, sn).value;
            var mid := Cleared(fs, dp, dn);
            && FsOk(mid) && Named(mid.nodes, sp, sn, x) && IsDir(mid.nodes, dp)
            && (IsDir(mid.nodes, x) <==> IsDir(fs.nodes, x))
            && (forall y :: !Named(mid.nodes, dp, dn, y))
            && RenameNode(fs, sp, sn, dp, dn).value == mid.(nodes := Moved(mid.nodes, sp, sn, dp, dn, x))
  {
    var x := FindNode(fs, sp, sn).value;
    var found := FindNode(fs, dp, dn);
    var mid := Cleared(fs, dp, dn);
    assert Named(fs.nodes, sp, sn, x);
    ClearedOk(fs, sp, sn, dp, dn, x);
    LinkThenRemove(mid, sp, sn, dp, dn, x);
  }

  lemma {:induction false} LinkThenRemove(mid: Fs, sp: Id, sn: Bytes, dp: Id, dn: Bytes, x: Id)
    requires Tree(mid.nodes) && Named(mid.nodes, sp, sn, x) && IsDir(mid.nodes, dp)
    requires IsDir(mid.nodes, x) ==> sp == dp
    requires !(sp == dp && sn == dn)
    ensures var linked := LinkNode(mid, dp, dn, x);
            && linked.Ok?
            && RemoveNode(linked.value, sp, sn, IsDir(mid.nodes, x)) ==
               Ok((mid.(nodes := Moved(mid.nodes, sp, sn, dp, dn, x)), None))
  {
    NotOwnParent(mid.nodes, sp, sn, x);
    assert x != dp;
    var linked := LinkNode(mid, dp, dn, x).value;
    assert linked.nodes[x].links == 2;
    assert FindNode(linked, sp, sn) == Ok(x);
    var dropped := DropEntry(linked.nodes, sp, sn);
    assert dropped[x := WithLinks(dropped[x], 1)] == Moved(mid.nodes, sp, sn, dp, dn, x);
  }

  /** Whatever the destination names can be removed. */
  predicate DestinationClears(fs: Fs, dp: Id, dn: Bytes) {
    var found := FindNode(fs, dp, dn);
    found.Ok? ==> RemoveNode(fs, dp, dn, fs.nodes[found.value].Dir?).Ok?
  }

  /** When the engine renames: a name that fits, and nothing in the way that cannot be removed. */
  lemma {:induction false} RenameNodeIff(fs: Fs, sp: Id, sn: Bytes, dp: Id, dn: Bytes, x: Id)
    requires FsOk(fs) && FindNode(fs, sp, sn) == Ok(x) && IsDir(fs.nodes, dp) && FindNode(fs, dp, dn) != Ok(x)
    requires (IsDir(fs.nodes, x) ==> sp == dp) && COLON !in dn
    ensures RenameNode(fs, sp, sn, dp, dn).Ok? <==> |dn| <= NAME_MAX && DestinationClears(fs, dp, dn)
  {
    assert Named(fs.nodes, sp, sn, x);
    if DestinationClears(fs, dp, dn) {
      ClearedOk(fs, sp, sn, dp, dn, x);
      var mid := Cleared(fs, dp, dn);
      if FindNode(fs, dp, dn).Ok? {
        ClearingStep(fs, dp, dn);
      }
      assert FindNode(mid, dp, dn).Err? by {
        assert !Named(mid.nodes, dp, dn, if dn in mid.nodes[dp].entries then mid.nodes[dp].entries[dn] else 0);
      }
      LinkThenRemove(mid, sp, sn, dp, dn, x);
    }
  }

  lemma {:induction false} ClearingStep(fs: Fs, dp: Id, dn: Bytes)
    requires FsOk(fs) && DestinationClears(fs, dp, dn) && FindNode(fs, dp, dn).Ok?
    ensures RemoveNode(fs, dp, dn, fs.nodes[FindNode(fs, dp, dn).value].Dir?).value.0 == Cleared(fs, dp, dn)
  {
    RemoveForm(fs, dp, dn, fs.nodes[FindNode(fs, dp, dn).value].Dir?);
  }

  lemma {:induction false} ClearedOk(fs: Fs, sp: Id, sn: Bytes, dp: Id, dn: Bytes, x: Id)
    requires FsOk(fs) && IsDir(fs.nodes, dp) && DestinationClears(fs, dp, dn)
    requires Named(fs.nodes, sp, sn, x) && FindNode(fs, sp, sn) == Ok(x) && FindNode(fs, dp, dn) != Ok(x)
    requires IsDir(fs.nodes, x) ==> sp == dp
    ensures var mid := Cleared(fs, dp, dn);
            && FsOk(mid) && Named(mid.nodes, sp, sn, x) && IsDir(mid.nodes, dp)
            && (IsDir(mid.nodes, x) <==> IsDir(fs.nodes, x))
            && (forall y :: !Named(mid.nodes, dp, dn, y))
  {
    var found := FindNode(fs, dp, dn);
    if found.Ok? {
      var y := found.value;
      var wantDir := fs.nodes[y].Dir?;
      RemoveForm(fs, dp, dn, wantDir);
      RemoveKeepsOk(fs, dp, dn, wantDir);
      NotOwnParent(fs.nodes, dp, dn, y);
      ClearedShape(fs.nodes, sp, sn, dp, dn, x, y, if Usage(fs, y) > 0 then {} else {y});
    }
  }

  /** The source is where it was: it is not what was cleared, and what was cleared held nothing. */
  lemma {:induction false} ClearedShape(nodes: map<Id, Node>, sp: Id, sn: Bytes, dp: Id, dn: Bytes, x: Id, y: Id, gone: set<Id>)
    requires Named(nodes, sp, sn, x) && Named(nodes, dp, dn, y) && x != y && dp != y && gone <= {y}
    requires IsDir(nodes, y) ==> nodes[y].entries == map[]
    ensures var mid := DropEntry(nodes, dp, dn) - gone;
            && Named(mid, sp, sn, x) && IsDir(mid, dp) && (IsDir(mid, x) <==> IsDir(nodes, x))
            && (forall z :: !Named(mid, dp, dn, z))
  {
    assert sn in nodes[sp].entries;
  }

  lemma {:induction false} RenameKeepsOk(fs: Fs, sp: Id, sn: Bytes, dp: Id, dn: Bytes)
    requires FsOk(fs) && RenameNode(fs, sp, sn, dp, dn).Ok?
    requires FindNode(fs, sp, sn).Ok?
    requires IsDir(fs.nodes, FindNode(fs, sp, sn).value) ==> sp == dp
    ensures FsOk(RenameNode(fs, sp, sn, dp, dn).value)
  {
    if FindNode(fs, dp, dn) != FindNode(fs, sp, sn) {
      RenameForm(fs, sp, sn, dp, dn);
      MoveKeepsOk(Cleared(fs, dp, dn), sp, sn, dp, dn, FindNode(fs, sp, sn).value);
    }
  }

  lemma {:induction false} MoveKeepsOk(mid: Fs, sp: Id, sn: Bytes, dp: Id, dn: Bytes, x: Id)
    requires FsOk(mid) && Named(mid.nodes, sp, sn, x) && IsDir(mid.nodes, dp)
    requires IsDir(mid.nodes, x) ==> sp == dp
    requires forall y :: !Named(mid.nodes, dp, dn, y)
    ensures FsOk(mid.(nodes := Moved(mid.nodes, sp, sn, dp, dn, x)))
  {
    TreeAfterMove(mid.nodes, sp, sn, dp, dn, x);
    MoveKinds(mid.nodes, sp, sn, dp, dn, x);
    BooksSameNames(mid, Moved(mid.nodes, sp, sn, dp, dn, x));
  }

  lemma {:induction false} MoveKinds(nodes: map<Id, Node>, sp: Id, sn: Bytes, dp: Id, dn: Bytes, x: Id)
    requires IsDir(nodes, sp) && IsDir(nodes, dp)
    ensures Moved(nodes, sp, sn, dp, dn, x).Keys == nodes.Keys
    ensures forall y :: IsFile(Moved(nodes, sp, sn, dp, dn, x), y) <==> IsFile(nodes, y)
  {
  }

  lemma {:induction false} BooksSameNames(fs: Fs, nodes: map<Id, Node>)
    requires Books(fs) && nodes.Keys == fs.nodes.Keys
    requires forall y :: IsFile(nodes, y) <==> IsFile(fs.nodes, y)
    requires forall y :: HasName(nodes, y) <==> HasName(fs.nodes, y)
    ensures Books(fs.(nodes := nodes))
  {
  }

  // --- data, open, close ---

  lemma {:induction false} DataKeepsOk(fs: Fs, x: Id, data: Bytes)
    requires FsOk(fs) && IsFile(fs.nodes, x)
    ensures FsOk(fs.(nodes := fs.nodes[x := fs.nodes[x].(data := data)]))
  {
    var node := fs.nodes[x].(data := data);
    var nodes' := fs.nodes[x := node];
    NamedAfterData(fs.nodes, x, node);
    NamesKept(fs.nodes, nodes');
    NamesKept(nodes', fs.nodes);
    BooksSameNames(fs, nodes');
    TreeSameNames(fs.nodes, nodes');
  }

  lemma {:induction false} TreeSameNames(nodes: map<Id, Node>, nodes': map<Id, Node>)
    requires Tree(nodes) && nodes'.Keys <= nodes.Keys
    requires forall q, m, y :: Named(nodes', q, m, y) <==> Named(nodes, q, m, y)
    requires forall y :: HasName(nodes', y) <==> HasName(nodes, y)
    requires forall y :: y in nodes' ==> nodes'[y].links == 1
    requires forall y :: IsDir(nodes', y) <==> IsDir(nodes, y)
    requires forall y :: HasName(nodes, y) ==> y in nodes'
    ensures Tree(nodes')
  {
    forall p, n, x | Named(nodes', p, n, x) ensures x in nodes' {
      assert HasName(nodes, x);
    }
    var rank :| Ranked(nodes, rank);
    assert Ranked(nodes', rank);
  }

  lemma {:induction false} OpenKeepsOk(fs: Fs, x: Id)
    requires FsOk(fs) && IsFile(fs.nodes, x)
    ensures FsOk(OnOpenNode(fs, x))
  {
  }

  /** The last close of a nameless file frees it; any other close frees nothing. */
  lemma {:induction false} CloseForm(fs: Fs, x: Id)
    requires FsOk(fs) && x in fs.usages
    ensures OnCloseNode(fs, x).Ok?
    ensures var fs' := OnCloseNode(fs, x).value;
            if x in fs.release && fs.usages[x] == 1
            then fs' == Fs(fs.nodes - {x}, fs.usages - {x}, fs.release - {x})
            else fs' == fs.(usages := if fs.usages[x] == 1 then fs.usages - {x} else fs.usages[x := fs.usages[x] - 1])
  {
    if fs.usages[x] == 1 {
      var fs1 := fs.(usages := fs.usages - {x});
      var dead := set y | y in fs1.release && Usage(fs1, y) == 0;
      assert dead == if x in fs.release then {x} else {};
    }
  }

  lemma {:induction false} CloseKeepsOk(fs: Fs, x: Id)
    requires FsOk(fs) && x in fs.usages
    ensures OnCloseNode(fs, x).Ok? && FsOk(OnCloseNode(fs, x).value)
  {
    CloseForm(fs, x);
    if x in fs.release && fs.usages[x] == 1 {
      TreeWithoutNameless(fs.nodes, x);
      BooksAfterReap(fs, x);
    } else {
      BooksAfterClose(fs, x, OnCloseNode(fs, x).value.usages);
    }
  }

  lemma {:induction false} TreeWithoutNameless(nodes: map<Id, Node>, x: Id)
    requires Tree(nodes) && IsFile(nodes, x) && !HasName(nodes, x)
    ensures Tree(nodes - {x})
    ensures forall y :: HasName(nodes - {x}, y) <==> HasName(nodes, y)
  {
    NamedAfterFree(nodes, {x});
    NamesKept(nodes, nodes - {x});
    NamesKept(nodes - {x}, nodes);
    forall y | HasName(nodes, y) ensures y in nodes - {x} {
      var q, m :| Named(nodes, q, m, y);
    }
    TreeSameNames(nodes, nodes - {x});
  }

  lemma {:induction false} BooksAfterClose(fs: Fs, x: Id, usages: map<Id, nat>)
    requires Books(fs) && x in fs.usages && (fs.usages[x] == 1 ==> x !in fs.release)
    requires usages == if fs.usages[x] == 1 then fs.usages - {x} else fs.usages[x := fs.usages[x] - 1]
    ensures Books(fs.(usages := usages))
  {
  }

  lemma {:induction false} BooksAfterReap(fs: Fs, x: Id)
    requires Books(fs) && x in fs.release && x != ROOT
    requires forall y :: HasName(fs.nodes - {x}, y) <==> HasName(fs.nodes, y)
    ensures Books(Fs(fs.nodes - {x}, fs.usages - {x}, fs.release - {x}))
  {
  }
}
