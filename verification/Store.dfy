/**
 The attribute store inside the tree: which nodes are hidden, what a node's blob is, and what the
 two store transactions (`PurgeAttrs`, `WriteAttrs`) do to the blobs and to everything visible.
 */
module Store {
  import opened Basics
  import opened Engine
  import opened Namespace
  import opened AttrStore
  import AttrCodec

  /** `st` is the store directory. */
  predicate IsStore(nodes: map<Id, Node>, st: Id) {
    Named(nodes, ROOT, STORE_DIR, st)
  }

  /** The store directory and the blob files in it: no client may ever name them. */
  ghost predicate Hidden(nodes: map<Id, Node>, x: Id) {
    exists st :: IsStore(nodes, st) && (x == st || exists n :: Named(nodes, st, n, x))
  }

  /** A blob exactly as the codec writes a non-empty good list. */
  ghost predicate GoodBlob(b: Bytes) {
    && b != []
    && AttrCodec.GoodList(AttrCodec.Records(b))
    && b == AttrCodec.Encode(AttrCodec.Records(b))
  }

  ghost predicate IsBlobName(n: Bytes) {
    exists id :: 0 < id < ID_LIMIT && n == FileName(id)
  }

  /** The store directory exists only while it holds a blob, and holds nothing but good blobs. */
  ghost predicate StoreOk(nodes: map<Id, Node>) {
    forall st :: IsStore(nodes, st) ==>
      && IsDir(nodes, st)
      && nodes[st].entries != map[]
      && forall n, x :: Named(nodes, st, n, x) ==> IsBlobName(n) && IsFile(nodes, x) && GoodBlob(nodes[x].data)
  }

  /** The blob of node `id`: empty when it has none. */
  function Blob(nodes: map<Id, Node>, id: Id): Bytes {
    if ROOT in nodes && nodes[ROOT].Dir? && STORE_DIR in nodes[ROOT].entries then
      var st := nodes[ROOT].entries[STORE_DIR];
      if st in nodes && nodes[st].Dir? && FileName(id) in nodes[st].entries then
        var x := nodes[st].entries[FileName(id)];
        if x in nodes && nodes[x].File? then nodes[x].data else []
      else []
    else []
  }

  lemma {:induction false} ReadAttrsIsBlob(fs: Fs, id: Id)
    requires Tree(fs.nodes) && StoreOk(fs.nodes)
    ensures ReadAttrs(fs, id) == Ok(Blob(fs.nodes, id))
    ensures Blob(fs.nodes, id) == [] || GoodBlob(Blob(fs.nodes, id))
  {
    if STORE_DIR in fs.nodes[ROOT].entries {
      var st := fs.nodes[ROOT].entries[STORE_DIR];
      assert IsStore(fs.nodes, st);
      if FileName(id) in fs.nodes[st].entries {
        var x := fs.nodes[st].entries[FileName(id)];
        assert Named(fs.nodes, st, FileName(id), x);
        AttrCodec.EncodedLength(AttrCodec.Records(fs.nodes[x].data));
        assert fs.nodes[x].data[0..|fs.nodes[x].data|] == fs.nodes[x].data;
      }
    }
  }

  // --- operations that leave the store alone ---

  /** The store directory and its blobs are the same in both. */
  ghost predicate SameStore(nodes: map<Id, Node>, nodes': map<Id, Node>) {
    && (forall st :: IsStore(nodes, st) <==> IsStore(nodes', st))
    && (forall st :: IsStore(nodes, st) ==> st in nodes && st in nodes' && nodes'[st] == nodes[st])
    && (forall st, n, x :: IsStore(nodes, st) && Named(nodes, st, n, x) ==> x in nodes && x in nodes' && nodes'[x] == nodes[x])
  }

  lemma {:induction false} SameStoreKeeps(nodes: map<Id, Node>, nodes': map<Id, Node>)
    requires SameStore(nodes, nodes') && IsDir(nodes, ROOT) && IsDir(nodes', ROOT)
    ensures StoreOk(nodes) ==> StoreOk(nodes')
    ensures forall x :: Hidden(nodes, x) <==> Hidden(nodes', x)
    ensures forall id :: Blob(nodes', id) == Blob(nodes, id)
  {
    forall st, n, x | IsStore(nodes, st)
      ensures Named(nodes, st, n, x) <==> Named(nodes', st, n, x)
    {
    }
    forall x ensures Hidden(nodes, x) <==> Hidden(nodes', x) {
      if Hidden(nodes, x) {
        var st :| IsStore(nodes, st) && (x == st || exists n :: Named(nodes, st, n, x));
        assert IsStore(nodes', st);
      }
      if Hidden(nodes', x) {
        var st :| IsStore(nodes', st) && (x == st || exists n :: Named(nodes', st, n, x));
        assert IsStore(nodes, st);
      }
    }
    forall id ensures Blob(nodes', id) == Blob(nodes, id) {
      if STORE_DIR in nodes[ROOT].entries {
        var st := nodes[ROOT].entries[STORE_DIR];
        assert IsStore(nodes, st) && IsStore(nodes', st);
        if nodes[st].Dir? && FileName(id) in nodes[st].entries {
          assert Named(nodes, st, FileName(id), nodes[st].entries[FileName(id)]);
        }
      } else if STORE_DIR in nodes'[ROOT].entries {
        assert IsStore(nodes', nodes'[ROOT].entries[STORE_DIR]);
      }
    }
  }

  /** An edit confined to visible nodes leaves the store alone. */
  lemma {:induction false} VisibleEdit(nodes: map<Id, Node>, nodes': map<Id, Node>, touched: set<Id>)
    requires Tree(nodes)
    requires forall y :: y !in touched ==> (y in nodes <==> y in nodes')
    requires forall y :: y in nodes && y !in touched ==> nodes'[y] == nodes[y]
    requires forall y :: y in touched ==> !Hidden(nodes, y)
    requires forall st :: IsStore(nodes, st) <==> IsStore(nodes', st)
    ensures SameStore(nodes, nodes')
  {
    forall st | IsStore(nodes, st) ensures st in nodes && st !in touched {
      assert Hidden(nodes, st);
    }
    forall st, n, x | IsStore(nodes, st) && Named(nodes, st, n, x) ensures x in nodes && x !in touched {
      assert Hidden(nodes, x);
    }
  }

  /** The only name of the store directory is its own, so nothing found elsewhere is hidden. */
  lemma {:induction false} FoundIsVisible(nodes: map<Id, Node>, p: Id, n: Bytes, x: Id)
    requires Tree(nodes) && Named(nodes, p, n, x) && !Hidden(nodes, p) && n != STORE_DIR
    ensures !Hidden(nodes, x)
  {
    forall st | IsStore(nodes, st) ensures x != st && forall m :: !Named(nodes, st, m, x) {
      assert Hidden(nodes, st);
    }
  }

  lemma {:induction false} RootIsVisible(nodes: map<Id, Node>)
    requires Tree(nodes)
    ensures !Hidden(nodes, ROOT)
  {
    forall st | IsStore(nodes, st) ensures ROOT != st && forall m :: !Named(nodes, st, m, ROOT) {
    }
  }

  // --- operations on the store ---

  /** Everything a client can reach is the same in both: only the root's store entry may differ. */
  ghost predicate SameVisible(nodes: map<Id, Node>, nodes': map<Id, Node>) {
    && (forall y :: y in nodes && !Hidden(nodes, y) <==> y in nodes' && !Hidden(nodes', y))
    && (forall y :: y in nodes && !Hidden(nodes, y) && y != ROOT ==> nodes'[y] == nodes[y])
    && IsDir(nodes, ROOT) && IsDir(nodes', ROOT)
    && nodes'[ROOT].entries - {STORE_DIR} == nodes[ROOT].entries - {STORE_DIR}
  }

  /** The blobs agree except, perhaps, node `id`'s. */
  ghost predicate SameBlobsBut(nodes: map<Id, Node>, nodes': map<Id, Node>, id: Id) {
    forall k :: 0 < k < ID_LIMIT && k != id ==> Blob(nodes', k) == Blob(nodes, k)
  }

  /** Nothing has the store open. */
  ghost predicate StoreUnused(fs: Fs) {
    forall x :: Hidden(fs.nodes, x) ==> Usage(fs, x) == 0
  }

  /** What a store transaction on node `id` leaves behind, whatever it did to that node's own blob. */
  ghost predicate StoreEdit(fs: Fs, fs': Fs, id: Id) {
    && FsOk(fs') && StoreOk(fs'.nodes)
    && fs'.usages == fs.usages && fs'.release == fs.release
    && SameVisible(fs.nodes, fs'.nodes)
    && SameBlobsBut(fs.nodes, fs'.nodes, id)
  }

  lemma {:induction false} HiddenIs(nodes: map<Id, Node>, st: Id)
    requires IsStore(nodes, st)
    ensures forall y :: Hidden(nodes, y) <==> y == st || exists n :: Named(nodes, st, n, y)
  {
  }

  lemma {:induction false} HiddenSame(nodes: map<Id, Node>, nodes': map<Id, Node>, st: Id)
    requires IsStore(nodes, st) && IsStore(nodes', st)
    requires forall n, y :: Named(nodes, st, n, y) <==> Named(nodes', st, n, y)
    ensures forall y :: Hidden(nodes, y) <==> Hidden(nodes', y)
  {
    HiddenIs(nodes, st);
    HiddenIs(nodes', st);
    forall y ensures Hidden(nodes, y) <==> Hidden(nodes', y) {
      if n :| Named(nodes, st, n, y) {
        assert Named(nodes', st, n, y);
      }
      if n :| Named(nodes', st, n, y) {
        assert Named(nodes, st, n, y);
      }
    }
  }

  /** The node map after the last step of removing blob file `x` from the store. */
  function WithoutBlob(nodes: map<Id, Node>, st: Id, n: Bytes, x: Id): map<Id, Node>
    requires IsDir(nodes, st)
  {
    DropEntry(nodes, st, n) - {x}
  }

  lemma {:induction false} BlobRemoved(nodes: map<Id, Node>, st: Id, id: Id, x: Id)
    requires Tree(nodes) && StoreOk(nodes) && 0 < id < ID_LIMIT
    requires IsStore(nodes, st) && Named(nodes, st, FileName(id), x)
    ensures var nodes' := WithoutBlob(nodes, st, FileName(id), x);
            && IsDir(nodes', st) && IsStore(nodes', st)
            && (forall n, y :: Named(nodes', st, n, y) <==> Named(nodes, st, n, y) && n != FileName(id))
            && Blob(nodes', id) == [] && SameBlobsBut(nodes, nodes', id) && SameVisible(nodes, nodes')
  {
    var nodes' := WithoutBlob(nodes, st, FileName(id), x);
    NotOwnParent(nodes, st, FileName(id), x);
    NotOwnParent(nodes, ROOT, STORE_DIR, st);
    TreeAfterFree(nodes, st, FileName(id), x);
    assert IsStore(nodes', st);
    HiddenIs(nodes, st);
    HiddenIs(nodes', st);
    forall y ensures y in nodes && !Hidden(nodes, y) <==> y in nodes' && !Hidden(nodes', y) {
      if y in nodes' && Hidden(nodes, y) && y != st {
        var n :| Named(nodes, st, n, y);
        assert Named(nodes', st, n, y);
      }
    }
    forall k | 0 < k < ID_LIMIT && k != id ensures Blob(nodes', k) == Blob(nodes, k) {
      if FileName(k) == FileName(id) {
        FileNameInjective(k, id);
      }
      if FileName(k) in nodes[st].entries {
        assert Named(nodes, st, FileName(k), nodes[st].entries[FileName(k)]);
      }
    }
  }

  lemma {:induction false} StoreDropped(nodes: map<Id, Node>, st: Id)
    requires Tree(nodes) && IsStore(nodes, st) && IsDir(nodes, st) && nodes[st].entries == map[]
    ensures var nodes' := DropEntry(nodes, ROOT, STORE_DIR) - {st};
            && IsDir(nodes', ROOT) && (forall y :: !IsStore(nodes', y))
            && (forall k :: Blob(nodes', k) == Blob(nodes, k)) && SameVisible(nodes, nodes')
  {
    NotOwnParent(nodes, ROOT, STORE_DIR, st);
    HiddenIs(nodes, st);
  }

  /** The store directory goes with its last blob. */
  lemma {:induction false} DropEffect(fs: Fs, st: Id)
    requires FsOk(fs) && IsStore(fs.nodes, st) && IsDir(fs.nodes, st) && fs.nodes[st].entries == map[] && Usage(fs, st) == 0
    ensures DropStoreIfEmpty(fs).Ok?
    ensures var fs' := DropStoreIfEmpty(fs).value;
            && FsOk(fs') && StoreOk(fs'.nodes) && fs'.usages == fs.usages && fs'.release == fs.release
            && SameVisible(fs.nodes, fs'.nodes) && (forall k :: Blob(fs'.nodes, k) == Blob(fs.nodes, k))
            && fs'.nodes.Keys <= fs.nodes.Keys
  {
    RemoveForm(fs, ROOT, STORE_DIR, true);
    RemoveKeepsOk(fs, ROOT, STORE_DIR, true);
    StoreDropped(fs.nodes, st);
  }

  lemma {:induction false} PurgeBlob(fs: Fs, id: Id, st: Id, x: Id)
    requires FsOk(fs) && StoreOk(fs.nodes) && StoreUnused(fs) && 0 < id < ID_LIMIT
    requires IsStore(fs.nodes, st) && Named(fs.nodes, st, FileName(id), x)
    ensures RemoveNode(fs, st, FileName(id), false) == Ok((fs.(nodes := WithoutBlob(fs.nodes, st, FileName(id), x)), Some(x)))
    ensures var fs1 := fs.(nodes := WithoutBlob(fs.nodes, st, FileName(id), x));
            && FsOk(fs1) && IsDir(fs1.nodes, st) && IsStore(fs1.nodes, st) && Usage(fs1, st) == 0
  {
    assert Hidden(fs.nodes, x) && Hidden(fs.nodes, st);
    assert RemoveNode(fs, st, FileName(id), false).Ok?;
    RemoveForm(fs, st, FileName(id), false);
    RemoveKeepsOk(fs, st, FileName(id), false);
    BlobRemoved(fs.nodes, st, id, x);
  }

  lemma {:induction false} PurgeFound(fs: Fs, id: Id, st: Id, x: Id)
    requires FsOk(fs) && StoreOk(fs.nodes) && StoreUnused(fs) && 0 < id < ID_LIMIT
    requires IsStore(fs.nodes, st) && Named(fs.nodes, st, FileName(id), x)
    ensures var dropped := DropStoreIfEmpty(fs.(nodes := WithoutBlob(fs.nodes, st, FileName(id), x)));
            && dropped.Ok? && StoreEdit(fs, dropped.value, id)
            && Blob(dropped.value.nodes, id) == [] && dropped.value.nodes.Keys <= fs.nodes.Keys
  {
    PurgeBlob(fs, id, st, x);
    BlobRemoved(fs.nodes, st, id, x);
    var fs1 := fs.(nodes := WithoutBlob(fs.nodes, st, FileName(id), x));
    if fs1.nodes[st].entries == map[] {
      DropEffect(fs1, st);
      SameVisibleTransitive(fs.nodes, fs1.nodes, DropStoreIfEmpty(fs1).value.nodes);
    } else {
      assert DropStoreIfEmpty(fs1) == Ok(fs1);
      StoreOkAfterRemoval(fs.nodes, st, id, x);
    }
  }

  /** Purging takes exactly one node's attributes away, and the store directory with the last of them. */
  lemma {:induction false} PurgeEffect(fs: Fs, id: Id)
    requires FsOk(fs) && StoreOk(fs.nodes) && StoreUnused(fs) && 0 < id < ID_LIMIT
    ensures PurgeAttrs(fs, id).Ok?
    ensures StoreEdit(fs, PurgeAttrs(fs, id).value, id)
    ensures Blob(PurgeAttrs(fs, id).value.nodes, id) == []
    ensures PurgeAttrs(fs, id).value.nodes.Keys <= fs.nodes.Keys
  {
    var name := FileName(id);
    if STORE_DIR in fs.nodes[ROOT].entries {
      var st := fs.nodes[ROOT].entries[STORE_DIR];
      assert IsStore(fs.nodes, st);
      if name in fs.nodes[st].entries {
        var x := fs.nodes[st].entries[name];
        assert Named(fs.nodes, st, name, x);
        PurgeBlob(fs, id, st, x);
        PurgeFound(fs, id, st, x);
      } else {
        assert FindNode(fs, st, name) == Err(ENOENT);
      }
    } else {
      assert FindNode(fs, ROOT, STORE_DIR) == Err(ENOENT);
    }
  }

  lemma {:induction false} StoreOkAfterRemoval(nodes: map<Id, Node>, st: Id, id: Id, x: Id)
    requires Tree(nodes) && StoreOk(nodes) && 0 < id < ID_LIMIT
    requires IsStore(nodes, st) && Named(nodes, st, FileName(id), x)
    requires IsDir(WithoutBlob(nodes, st, FileName(id), x), st)
    requires WithoutBlob(nodes, st, FileName(id), x)[st].entries != map[]
    ensures StoreOk(WithoutBlob(nodes, st, FileName(id), x))
  {
    var nodes' := WithoutBlob(nodes, st, FileName(id), x);
    BlobRemoved(nodes, st, id, x);
    forall y | IsStore(nodes', y) ensures y == st {}
    forall n, y | Named(nodes', st, n, y) ensures y in nodes' && nodes'[y] == nodes[y] {
      assert Named(nodes, st, n, y);
      NotOwnParent(nodes, st, n, y);
    }
  }

  lemma {:induction false} SameVisibleTransitive(a: map<Id, Node>, b: map<Id, Node>, c: map<Id, Node>)
    requires SameVisible(a, b) && SameVisible(b, c)
    ensures SameVisible(a, c)
  {
    forall y | y in a && !Hidden(a, y) && y != ROOT ensures c[y] == a[y] {
      assert y in b && !Hidden(b, y);
    }
  }

  // --- writing a blob ---

  /** Every blob but the one called `exempt` is good; the directory may be empty. */
  ghost predicate StoreOkBut(nodes: map<Id, Node>, exempt: Bytes) {
    forall st :: IsStore(nodes, st) ==>
      && IsDir(nodes, st)
      && forall n, x :: Named(nodes, st, n, x) ==>
           IsBlobName(n) && IsFile(nodes, x) && (n != exempt ==> GoodBlob(nodes[x].data))
  }

  lemma {:induction false} EnsureStoreEffect(fs: Fs, hint: Id)
    requires FsOk(fs) && StoreOk(fs.nodes) && EnsureStore(fs, hint).Ok?
    ensures var (fs', st) := EnsureStore(fs, hint).value;
            && FsOk(fs') && IsStore(fs'.nodes, st) && IsDir(fs'.nodes, st)
            && fs'.usages == fs.usages && fs'.release == fs.release
            && (forall exempt :: StoreOkBut(fs'.nodes, exempt))
            && SameVisible(fs.nodes, fs'.nodes)
            && forall k :: Blob(fs'.nodes, k) == Blob(fs.nodes, k)
  {
    var (fs', st) := EnsureStore(fs, hint).value;
    if STORE_DIR in fs.nodes[ROOT].entries {
      assert IsStore(fs.nodes, fs.nodes[ROOT].entries[STORE_DIR]);
    } else {
      assert FindNode(fs, ROOT, STORE_DIR) == Err(ENOENT);
      CreateKeepsOk(fs, ROOT, STORE_DIR, true, hint);
      StoreMade(fs.nodes, hint);
    }
  }

  lemma {:induction false} StoreMade(nodes: map<Id, Node>, x: Id)
    requires Tree(nodes) && x !in nodes && STORE_DIR !in nodes[ROOT].entries
    ensures var nodes' := AddEntry(nodes[x := Dir(1, map[])], ROOT, STORE_DIR, x);
            && IsStore(nodes', x) && IsDir(nodes', x)
            && (forall exempt :: StoreOkBut(nodes', exempt))
            && SameVisible(nodes, nodes')
            && forall k :: Blob(nodes', k) == Blob(nodes, k)
  {
    var nodes' := AddEntry(nodes[x := Dir(1, map[])], ROOT, STORE_DIR, x);
    assert IsStore(nodes', x);
    HiddenIs(nodes', x);
    forall y ensures !Hidden(nodes, y) {
    }
  }

  lemma {:induction false} EnsureBlobEffect(fs: Fs, st: Id, id: Id, hint: Id)
    requires FsOk(fs) && IsStore(fs.nodes, st) && IsDir(fs.nodes, st) && 0 < id < ID_LIMIT
    requires StoreOkBut(fs.nodes, FileName(id)) && EnsureBlob(fs, st, id, hint).Ok?
    ensures var (fs', x) := EnsureBlob(fs, st, id, hint).value;
            && FsOk(fs') && IsStore(fs'.nodes, st) && Named(fs'.nodes, st, FileName(id), x) && IsFile(fs'.nodes, x)
            && fs'.usages == fs.usages && fs'.release == fs.release
            && StoreOkBut(fs'.nodes, FileName(id))
            && SameVisible(fs.nodes, fs'.nodes)
            && SameBlobsBut(fs.nodes, fs'.nodes, id)
  {
    var name := FileName(id);
    var (fs', x) := EnsureBlob(fs, st, id, hint).value;
    if name in fs.nodes[st].entries {
      assert Named(fs.nodes, st, name, fs.nodes[st].entries[name]);
    } else {
      CreateKeepsOk(fs, st, name, false, hint);
      CreateForm(fs, st, name, false, hint);
      BlobCreated(fs.nodes, st, id, hint);
    }
  }

  lemma {:induction false} BlobCreated(nodes: map<Id, Node>, st: Id, id: Id, x: Id)
    requires Tree(nodes) && IsStore(nodes, st) && IsDir(nodes, st) && 0 < id < ID_LIMIT
    requires StoreOkBut(nodes, FileName(id)) && x !in nodes && FileName(id) !in nodes[st].entries
    ensures var nodes' := AddEntry(nodes[x := File(1, [])], st, FileName(id), x);
            && StoreOkBut(nodes', FileName(id)) && SameVisible(nodes, nodes') && SameBlobsBut(nodes, nodes', id)
  {
    var name := FileName(id);
    var nodes' := AddEntry(nodes[x := File(1, [])], st, name, x);
    NotOwnParent(nodes, ROOT, STORE_DIR, st);
    NamedAfterFresh(nodes, x, File(1, []));
    NamedAfterAdd(nodes[x := File(1, [])], st, name, x);
    assert IsStore(nodes', st) && Named(nodes', st, name, x);
    HiddenIs(nodes, st);
    HiddenIs(nodes', st);
    forall y | y in nodes ensures Hidden(nodes', y) <==> Hidden(nodes, y) {
      if Hidden(nodes, y) && y != st {
        var n :| Named(nodes, st, n, y);
        assert Named(nodes', st, n, y);
      }
      if Hidden(nodes', y) && y != st {
        var n :| Named(nodes', st, n, y);
        assert n == name || Named(nodes, st, n, y);
      }
    }
    assert IsBlobName(name);
    forall n, y | Named(nodes', st, n, y) && n != name ensures Named(nodes, st, n, y) && nodes'[y] == nodes[y] {
      assert Named(nodes, st, n, y);
      NotOwnParent(nodes, st, n, y);
      assert y in nodes && y != x && y != st;
    }
    forall k | 0 < k < ID_LIMIT && k != id ensures Blob(nodes', k) == Blob(nodes, k) {
      if FileName(k) == name {
        FileNameInjective(k, id);
      }
      if FileName(k) in nodes[st].entries {
        assert Named(nodes, st, FileName(k), nodes[st].entries[FileName(k)]);
      }
    }
  }

  /** Writing at offset 0 and then truncating to the length written leaves exactly what was written: no tail. */
  lemma {:induction false} OverwriteThenShrink(was: Bytes, blob: Bytes)
    ensures Resized(Overlaid(was, 0, blob), |blob|) == blob
  {
  }

  /** Writing a file from the front and cutting it to length replaces its bytes: no old tail is left. */
  lemma {:induction false} ReplaceData(fs: Fs, x: Id, blob: Bytes)
    requires IsFile(fs.nodes, x)
    ensures WriteNode(fs, x, 0, blob).Ok?
    ensures TruncateNode(WriteNode(fs, x, 0, blob).value, x, |blob|) ==
            Ok(fs.(nodes := fs.nodes[x := fs.nodes[x].(data := blob)]))
  {
    var mid := WriteNode(fs, x, 0, blob).value;
    OverwriteThenShrink(fs.nodes[x].data, blob);
    assert mid.nodes[x := mid.nodes[x].(data := blob)] == fs.nodes[x := fs.nodes[x].(data := blob)];
  }

  lemma {:induction false} BlobWritten(nodes: map<Id, Node>, st: Id, id: Id, x: Id, blob: Bytes)
    requires Tree(nodes) && IsStore(nodes, st) && 0 < id < ID_LIMIT && GoodBlob(blob)
    requires Named(nodes, st, FileName(id), x) && IsFile(nodes, x) && StoreOkBut(nodes, FileName(id))
    ensures var nodes' := nodes[x := nodes[x].(data := blob)];
            && StoreOk(nodes') && SameVisible(nodes, nodes') && SameBlobsBut(nodes, nodes', id)
            && Blob(nodes', id) == blob
  {
    var node := nodes[x].(data := blob);
    var nodes' := nodes[x := node];
    NamedAfterData(nodes, x, node);
    assert IsStore(nodes', st);
    HiddenSame(nodes, nodes', st);
    forall k | 0 < k < ID_LIMIT && k != id ensures Blob(nodes', k) == Blob(nodes, k) {
      if FileName(k) == FileName(id) {
        FileNameInjective(k, id);
      }
      if FileName(k) in nodes[st].entries {
        assert Named(nodes, st, FileName(k), nodes[st].entries[FileName(k)]);
      }
    }
    forall n, y | Named(nodes', st, n, y) && n != FileName(id) ensures y != x {
      assert Named(nodes, st, n, y);
    }
  }

  lemma {:induction false} WriteForm(fs: Fs, id: Id, blob: Bytes, dirHint: Id, fileHint: Id)
    requires blob != [] && WriteAttrs(fs, id, blob, dirHint, fileHint).Ok?
    ensures EnsureStore(fs, dirHint).Ok?
    ensures var (fs1, st) := EnsureStore(fs, dirHint).value;
            && EnsureBlob(fs1, st, id, fileHint).Ok?
            && var (fs2, x) := EnsureBlob(fs1, st, id, fileHint).value;
               && IsFile(fs2.nodes, x)
               && WriteAttrs(fs, id, blob, dirHint, fileHint).value ==
                  fs2.(nodes := fs2.nodes[x := fs2.nodes[x].(data := blob)])
  {
    var (fs1, st) := EnsureStore(fs, dirHint).value;
    var (fs2, x) := EnsureBlob(fs1, st, id, fileHint).value;
    ReplaceData(fs2, x, blob);
  }

  /** Writing a good blob sets exactly one node's attributes, creating the store and the blob file as needed. */
  lemma {:induction false} WriteEffect(fs: Fs, id: Id, blob: Bytes, dirHint: Id, fileHint: Id)
    requires FsOk(fs) && StoreOk(fs.nodes) && 0 < id < ID_LIMIT && GoodBlob(blob)
    requires WriteAttrs(fs, id, blob, dirHint, fileHint).Ok?
    ensures StoreEdit(fs, WriteAttrs(fs, id, blob, dirHint, fileHint).value, id)
    ensures Blob(WriteAttrs(fs, id, blob, dirHint, fileHint).value.nodes, id) == blob
  {
    WriteForm(fs, id, blob, dirHint, fileHint);
    var (fs1, st) := EnsureStore(fs, dirHint).value;
    EnsureStoreEffect(fs, dirHint);
    var (fs2, x) := EnsureBlob(fs1, st, id, fileHint).value;
    EnsureBlobEffect(fs1, st, id, fileHint);
    BlobWritten(fs2.nodes, st, id, x, blob);
    DataKeepsOk(fs2, x, blob);
    SameVisibleTransitive(fs.nodes, fs1.nodes, fs2.nodes);
    SameVisibleTransitive(fs.nodes, fs2.nodes, fs2.nodes[x := fs2.nodes[x].(data := blob)]);
  }
}
