/**
 The invariant of the file server, kept by every request that removes no directory a live handle
 names, and exactly by those: the namespace is a tree, the store is well formed, every handle names a
 live visible node of its kind, slot 0 is the root, and the engine's usage count of every node is the
 number of file handles naming it.
 */
module ServerInvariant {
  import opened Basics
  import opened Engine
  import opened Namespace
  import opened AttrStore
  import opened Store
  import opened Visible
  import opened Rights
  import opened Verbs

  function Counts(o: Option<Entry>, x: Id): nat {
    if o.Some? && o.value.FileEntry? && o.value.node == x then 1 else 0
  }

  /** How many file entries of the table name node `x`. */
  function OpenCount(handles: seq<Option<Entry>>, x: Id): nat {
    if handles == [] then 0
    else Counts(handles[0], x) + OpenCount(handles[1..], x)
  }

  ghost predicate EntryOk(nodes: map<Id, Node>, e: Entry) {
    && !Hidden(nodes, e.node)
    && (if e.DirEntry? then IsDir(nodes, e.node) && e.rights <= ALL
        else IsFile(nodes, e.node) && e.rights <= {READ, WRITE})
  }

  ghost predicate HandlesOk(s: State) {
    && |s.handles| > 0 && s.handles[0] == Some(DirEntry(ROOT, ALL))
    && forall h :: 0 <= h < |s.handles| && s.handles[h].Some? ==> EntryOk(s.fs.nodes, s.handles[h].value)
  }

  ghost predicate CountsOk(s: State) {
    forall x :: Usage(s.fs, x) == OpenCount(s.handles, x)
  }

  ghost predicate Inv(s: State) {
    FsOk(s.fs) && StoreOk(s.fs.nodes) && HandlesOk(s) && CountsOk(s)
  }

  // --- counting ---

  lemma {:induction false} CountUpdated(handles: seq<Option<Entry>>, h: nat, o: Option<Entry>, x: Id)
    requires h < |handles|
    ensures OpenCount(handles[h := o], x) == OpenCount(handles, x) - Counts(handles[h], x) + Counts(o, x)
  {
    if h == 0 {
      assert handles[h := o][1..] == handles[1..];
    } else {
      assert handles[h := o][1..] == handles[1..][h - 1 := o];
      CountUpdated(handles[1..], h - 1, o, x);
    }
  }

  lemma {:induction false} CountAppended(handles: seq<Option<Entry>>, o: Option<Entry>, x: Id)
    ensures OpenCount(handles + [o], x) == OpenCount(handles, x) + Counts(o, x)
  {
    if handles == [] {
      assert [o][1..] == [];
    } else {
      assert (handles + [o])[1..] == handles[1..] + [o];
      CountAppended(handles[1..], o, x);
    }
  }

  lemma {:induction false} CountInstalled(handles: seq<Option<Entry>>, e: Entry, x: Id)
    ensures OpenCount(Installed(handles, e), x) == OpenCount(handles, x) + Counts(Some(e), x)
  {
    if FirstFree(handles) < |handles| {
      CountUpdated(handles, FirstFree(handles), Some(e), x);
    } else {
      CountAppended(handles, Some(e), x);
    }
  }

  /** A node is counted exactly when some file entry names it. */
  lemma {:induction false} CountPositive(handles: seq<Option<Entry>>, x: Id)
    ensures OpenCount(handles, x) > 0 <==>
            exists h :: 0 <= h < |handles| && handles[h].Some? && handles[h].value.FileEntry? && handles[h].value.node == x
  {
    if handles != [] {
      CountPositive(handles[1..], x);
      if h :| 0 <= h < |handles| && handles[h].Some? && handles[h].value.FileEntry? && handles[h].value.node == x {
        assert h == 0 || handles[h] == handles[1..][h - 1];
      }
      if h :| 0 <= h < |handles[1..]| && handles[1..][h].Some? && handles[1..][h].value.FileEntry? && handles[1..][h].value.node == x {
        assert handles[1..][h] == handles[h + 1];
      }
    }
  }

  /** Only visible files are in use. */
  lemma {:induction false} UsedIsVisible(s: State)
    requires Inv(s)
    ensures StoreUnused(s.fs)
  {
    forall x | Hidden(s.fs.nodes, x) ensures Usage(s.fs, x) == 0 {
      CountPositive(s.handles, x);
    }
  }

  // --- one step: a new engine state, and perhaps one more handle ---

  /**
   The invariant holds after the step, the visible tree changed only at `touched`, and only the nodes
   in `tagged` may have lost their name or have other attributes than before.
   */
  ghost predicate Stepped(s: State, s': State, touched: set<Id>, tagged: set<Id>) {
    && Inv(s')
    && Effect(s.fs.nodes, s'.fs.nodes, touched, tagged)
    && forall k :: 0 < k < ID_LIMIT && k !in tagged ==> Blob(s'.fs.nodes, k) == Blob(s.fs.nodes, k)
  }

  ghost predicate AllOk(nodes: map<Id, Node>, handles: seq<Option<Entry>>) {
    forall h :: 0 <= h < |handles| && handles[h].Some? ==> EntryOk(nodes, handles[h].value)
  }

  lemma {:induction false} Unchanged(s: State, touched: set<Id>, tagged: set<Id>)
    requires Inv(s)
    ensures Stepped(s, s, touched, tagged)
  {
    EffectRefl(s.fs.nodes, touched, tagged);
  }

  /** Some live handle names `x`. */
  ghost predicate Held(s: State, x: Id) {
    exists h :: 0 <= h < |s.handles| && s.handles[h].Some? && s.handles[h].value.node == x
  }

  ghost predicate NoneHeld(s: State, xs: set<Id>) {
    forall x :: x in xs ==> !Held(s, x)
  }

  /** An edit of the visible tree that takes away nothing a handle names. */
  ghost predicate SafeEdit(s: State, nodes': map<Id, Node>, touched: set<Id>, lost: set<Id>) {
    exists gone :: VisibleChange(s.fs.nodes, nodes', touched, gone, lost) && NoneHeld(s, gone)
  }

  /** Handles survive an edit of the visible tree that takes away nothing they name. */
  lemma {:induction false} EntriesKept(s: State, nodes': map<Id, Node>, touched: set<Id>, gone: set<Id>, lost: set<Id>)
    requires Inv(s) && VisibleChange(s.fs.nodes, nodes', touched, gone, lost) && IsDir(nodes', ROOT) && NoneHeld(s, gone)
    ensures StoreOk(nodes') && AllOk(nodes', s.handles)
    ensures Effect(s.fs.nodes, nodes', touched, lost) && forall id :: Blob(nodes', id) == Blob(s.fs.nodes, id)
    ensures forall y :: Hidden(nodes', y) <==> Hidden(s.fs.nodes, y)
  {
    ChangeIsEffect(s.fs.nodes, nodes', touched, gone, lost);
    SameStoreKeeps(s.fs.nodes, nodes');
    forall h | 0 <= h < |s.handles| && s.handles[h].Some? ensures EntryOk(nodes', s.handles[h].value) {
      assert Held(s, s.handles[h].value.node);
    }
  }

  lemma {:induction false} EditKeeps(s: State, fs': Fs, touched: set<Id>, lost: set<Id>)
    requires Inv(s) && FsOk(fs') && fs'.usages == s.fs.usages && SafeEdit(s, fs'.nodes, touched, lost)
    ensures Stepped(s, s.(fs := fs'), touched, lost)
  {
    var gone :| VisibleChange(s.fs.nodes, fs'.nodes, touched, gone, lost) && NoneHeld(s, gone);
    EntriesKept(s, fs'.nodes, touched, gone, lost);
  }

  /** A store transaction on node `id`. */
  lemma {:induction false} StoreEditKeeps(s: State, fs': Fs, id: Id)
    requires Inv(s) && StoreEdit(s.fs, fs', id)
    ensures Stepped(s, s.(fs := fs'), {}, {id})
  {
    StoreEditIsEffect(s.fs.nodes, fs'.nodes);
    forall h | 0 <= h < |s.handles| && s.handles[h].Some? ensures EntryOk(fs'.nodes, s.handles[h].value) {
      assert s.handles[h].value.node in s.fs.nodes;
    }
  }

  /** An edit of the visible tree, then the purge of one node's attributes. */
  lemma {:induction false} EditThenPurge(s: State, fs1: Fs, touched: set<Id>, id: Id)
    requires Inv(s) && FsOk(fs1) && fs1.usages == s.fs.usages && 0 < id < ID_LIMIT
    requires SafeEdit(s, fs1.nodes, touched, {id})
    requires forall y :: y in touched ==> !Hidden(s.fs.nodes, y)
    ensures PurgeAttrs(fs1, id).Ok?
    ensures Stepped(s, s.(fs := PurgeAttrs(fs1, id).value), touched, {id})
    ensures Blob(PurgeAttrs(fs1, id).value.nodes, id) == []
    ensures SameVisible(fs1.nodes, PurgeAttrs(fs1, id).value.nodes) && forall y :: Hidden(fs1.nodes, y) <==> Hidden(s.fs.nodes, y)
  {
    var s1 := s.(fs := fs1);
    var gone :| VisibleChange(s.fs.nodes, fs1.nodes, touched, gone, {id}) && NoneHeld(s, gone);
    EditKeeps(s, fs1, touched, {id});
    EntriesKept(s, fs1.nodes, touched, gone, {id});
    UsedIsVisible(s1);
    PurgeEffect(fs1, id);
    StoreEditKeeps(s1, PurgeAttrs(fs1, id).value, id);
    EffectCompose(s.fs.nodes, fs1.nodes, PurgeAttrs(fs1, id).value.nodes, touched, {id});
  }

  /** A safe edit of the engine state, and what a purge of the node it loses, if any, makes of it. */
  ghost predicate Purgeable(s: State, fs1: Fs, touched: set<Id>, lost: Result<Id>, out: Result<Fs>) {
    && FsOk(fs1) && fs1.usages == s.fs.usages && (lost.Ok? ==> 0 < lost.value < ID_LIMIT)
    && SafeEdit(s, fs1.nodes, touched, if lost.Ok? then {lost.value} else {})
    && (forall y :: y in touched ==> !Hidden(s.fs.nodes, y))
    && out == if lost.Ok? then PurgeAttrs(fs1, lost.value) else Ok(fs1)
  }

  /** The same when there may be nothing to purge. */
  lemma {:induction false} EditMayPurge(s: State, fs1: Fs, touched: set<Id>, lost: Result<Id>, out: Result<Fs>)
    requires Inv(s) && Purgeable(s, fs1, touched, lost, out)
    ensures out.Ok? && Stepped(s, s.(fs := out.value), touched, if lost.Ok? then {lost.value} else {})
    ensures lost.Ok? ==> Blob(out.value.nodes, lost.value) == []
    ensures forall y :: y in fs1.nodes && !Hidden(s.fs.nodes, y) ==> VisibleEntries(out.value.nodes, y) == VisibleEntries(fs1.nodes, y)
  {
    if lost.Ok? {
      EditThenPurge(s, fs1, touched, lost.value);
    } else {
      EditKeeps(s, fs1, touched, {});
    }
  }

  /** Minting: the engine counts the new handle if and only if it is a file handle. */
  lemma {:induction false} MintCounts(s: State, fs': Fs, e: Entry)
    requires CountsOk(s) && forall x :: Usage(fs', x) == Usage(s.fs, x) + Counts(Some(e), x)
    ensures CountsOk(State(fs', Installed(s.handles, e)))
  {
    forall x ensures Usage(fs', x) == OpenCount(Installed(s.handles, e), x) {
      CountInstalled(s.handles, e, x);
    }
  }

  lemma {:induction false} MintHandles(s: State, fs': Fs, e: Entry)
    requires HandlesOk(s) && AllOk(fs'.nodes, s.handles) && EntryOk(fs'.nodes, e)
    ensures HandlesOk(State(fs', Installed(s.handles, e)))
  {
  }

  lemma {:induction false} MintKeeps(s: State, fs': Fs, e: Entry, touched: set<Id>)
    requires Inv(s) && FsOk(fs') && EntryOk(fs'.nodes, e) && VisibleChange(s.fs.nodes, fs'.nodes, touched, {}, {})
    requires forall x :: Usage(fs', x) == Usage(s.fs, x) + Counts(Some(e), x)
    ensures Stepped(s, State(fs', Installed(s.handles, e)), touched, {})
  {
    EntriesKept(s, fs'.nodes, touched, {}, {});
    MintCounts(s, fs', e);
    MintHandles(s, fs', e);
  }

  lemma {:induction false} SameIsChange(nodes: map<Id, Node>)
    requires Tree(nodes)
    ensures VisibleChange(nodes, nodes, {}, {}, {})
  {
    VisibleEdit(nodes, nodes, {});
    NamesKeepKids(nodes, nodes, {});
  }

  // --- which requests keep the invariant ---

  /** The directory a request takes out of the tree, if it takes one. */
  function RemovedDir(s: State, req: Request): Option<Id> {
    match req
    case Rmdir(h, name) =>
      (match DirAt(s, h)
       case Err(_) => None
       case Ok(d) =>
         var found := FindNode(s.fs, d.node, name);
         if RemoveTx(s, h, name, true).Ok? && found.Ok? then Some(found.value) else None)
    case Rename(h, name, dstH, dstName) =>
      (match (DirAt(s, h), DirAt(s, dstH))
       case (Ok(from), Ok(to)) =>
         var found := FindNode(s.fs, to.node, dstName);
         if && RenameTx(s, h, name, dstH, dstName).Ok?
            && found.Ok? && found != FindNode(s.fs, from.node, name) && s.fs.nodes[found.value].Dir?
         then Some(found.value) else None
       case _ => None)
    case _ => None
  }

  /** The request removes no directory that a live handle names. */
  ghost predicate Permitted(s: State, req: Request) {
    RemovedDir(s, req).Some? ==> !Held(s, RemovedDir(s, req).value)
  }

  /** A used file is named by some handle, so an unused one is held by none. */
  lemma {:induction false} UnusedFileNotHeld(s: State, x: Id)
    requires Inv(s) && IsFile(s.fs.nodes, x) && Usage(s.fs, x) == 0
    ensures !Held(s, x)
  {
    CountPositive(s.handles, x);
    forall h | 0 <= h < |s.handles| && s.handles[h].Some? ensures s.handles[h].value.node != x {
      assert EntryOk(s.fs.nodes, s.handles[h].value);
    }
  }

  /** What `unlink` and `rmdir` compute, in two moves: take the node out of the visible tree, purge its attributes. */
  lemma {:induction false} RemoveSplit(s: State, h: nat, name: Bytes, wantDir: bool)
    requires Inv(s) && RemoveTx(s, h, name, wantDir).Ok?
    ensures DirAt(s, h).Ok?
    ensures var d := DirAt(s, h).value.node;
            && !Hidden(s.fs.nodes, d) && IsDir(s.fs.nodes, d) && name != STORE_DIR
            && RemoveNode(s.fs, d, name, wantDir).Ok?
            && var (fs1, gone) := RemoveNode(s.fs, d, name, wantDir).value;
               && gone.Some? && FindNode(s.fs, d, name) == Ok(gone.value)
               && 0 < gone.value < ID_LIMIT
               && RemoveTx(s, h, name, wantDir) == PurgeAttrs(fs1, gone.value)
  {
    var d := DirAt(s, h).value;
    assert EntryOk(s.fs.nodes, d);
    RemoveForm(s.fs, d.node, name, wantDir);
  }

  /** The first of them is an edit of the visible tree that takes nothing a handle names. */
  lemma {:induction false} RemoveEdits(s: State, h: nat, name: Bytes, wantDir: bool)
    requires Inv(s) && RemoveTx(s, h, name, wantDir).Ok?
    requires wantDir ==> Permitted(s, Rmdir(h, name))
    ensures DirAt(s, h).Ok? && RemoveNode(s.fs, DirAt(s, h).value.node, name, wantDir).Ok?
    ensures var d := DirAt(s, h).value.node;
            var (fs1, gone) := RemoveNode(s.fs, d, name, wantDir).value;
            && gone.Some? && FsOk(fs1) && fs1.usages == s.fs.usages && !Hidden(s.fs.nodes, d)
            && SafeEdit(s, fs1.nodes, {d}, {gone.value})
  {
    RemoveSplit(s, h, name, wantDir);
    var d := DirAt(s, h).value.node;
    var (fs1, removed) := RemoveNode(s.fs, d, name, wantDir).value;
    var x := removed.value;
    RemoveVisible(s.fs, d, name, wantDir);
    RemoveKeepsOk(s.fs, d, name, wantDir);
    if !wantDir && Usage(s.fs, x) == 0 {
      UnusedFileNotHeld(s, x);
    }
    var gone: set<Id> := if Usage(s.fs, x) > 0 then {} else {x};
    assert VisibleChange(s.fs.nodes, fs1.nodes, {d}, gone, {x}) && NoneHeld(s, gone);
  }

  lemma {:induction false} RemoveKeeps(s: State, h: nat, name: Bytes, wantDir: bool)
    requires Inv(s) && RemoveTx(s, h, name, wantDir).Ok?
    requires wantDir ==> Permitted(s, Rmdir(h, name))
    ensures DirAt(s, h).Ok? && FindNode(s.fs, DirAt(s, h).value.node, name).Ok?
    ensures var fs', x := RemoveTx(s, h, name, wantDir).value, FindNode(s.fs, DirAt(s, h).value.node, name).value;
            Stepped(s, s.(fs := fs'), {DirAt(s, h).value.node}, {x}) && Blob(fs'.nodes, x) == []
  {
    RemoveSplit(s, h, name, wantDir);
    RemoveEdits(s, h, name, wantDir);
    var d := DirAt(s, h).value.node;
    var (fs1, removed) := RemoveNode(s.fs, d, name, wantDir).value;
    EditThenPurge(s, fs1, {d}, removed.value);
  }

  /** What `rename` computes when something moves: clear the destination, move one name, purge what was replaced. */
  lemma {:induction false} RenameSplit(s: State, srcH: nat, src: Bytes, dstH: nat, dst: Bytes)
    requires Inv(s) && RenameTx(s, srcH, src, dstH, dst).Ok?
    ensures DirAt(s, srcH).Ok? && DirAt(s, dstH).Ok? && src != STORE_DIR && dst != STORE_DIR
    ensures var sp, dp := DirAt(s, srcH).value.node, DirAt(s, dstH).value.node;
            && IsDir(s.fs.nodes, sp) && IsDir(s.fs.nodes, dp) && !Hidden(s.fs.nodes, sp) && !Hidden(s.fs.nodes, dp)
            && FindNode(s.fs, sp, src).Ok?
            && var x, found := FindNode(s.fs, sp, src).value, FindNode(s.fs, dp, dst);
               && (IsDir(s.fs.nodes, x) ==> sp == dp)
               && (found == Ok(x) ==> RenameTx(s, srcH, src, dstH, dst).value == s.fs)
               && (found != Ok(x) ==>
                     && RenameNode(s.fs, sp, src, dp, dst).Ok?
                     && (found.Ok? ==> IsDir(s.fs.nodes, found.value) == IsDir(s.fs.nodes, x) && 0 < found.value < ID_LIMIT)
                     && RenameTx(s, srcH, src, dstH, dst) ==
                        if found.Ok? then PurgeAttrs(RenameNode(s.fs, sp, src, dp, dst).value, found.value)
                        else RenameNode(s.fs, sp, src, dp, dst))
  {
    assert EntryOk(s.fs.nodes, DirAt(s, srcH).value);
    assert EntryOk(s.fs.nodes, DirAt(s, dstH).value);
  }

  /** The node a rename onto `dp/dn` replaces. */
  function ReplacedAt(fs: Fs, dp: Id, dn: Bytes): set<Id> {
    if FindNode(fs, dp, dn).Ok? then {FindNode(fs, dp, dn).value} else {}
  }

  /** What a rename needs of the destination before the move, from the engine's side and from the handles'. */
  ghost predicate Clearable(s: State, dp: Id, dst: Bytes) {
    && IsDir(s.fs.nodes, dp) && !Hidden(s.fs.nodes, dp) && dst != STORE_DIR
    && (FindNode(s.fs, dp, dst).Ok? ==>
          var y := FindNode(s.fs, dp, dst).value;
          && 0 < y < ID_LIMIT && (IsDir(s.fs.nodes, y) ==> !Held(s, y))
          && RemoveNode(s.fs, dp, dst, IsDir(s.fs.nodes, y)).Ok?)
  }

  lemma {:induction false} ClearVisible(s: State, dp: Id, dst: Bytes)
    requires Inv(s) && Clearable(s, dp, dst)
    ensures var mid := Cleared(s.fs, dp, dst);
            && mid.usages == s.fs.usages
            && SafeEdit(s, mid.nodes, {dp}, ReplacedAt(s.fs, dp, dst))
  {
    var found := FindNode(s.fs, dp, dst);
    if found.Ok? {
      var y := found.value;
      var wantDir := IsDir(s.fs.nodes, y);
      RemoveForm(s.fs, dp, dst, wantDir);
      RemoveVisible(s.fs, dp, dst, wantDir);
      if !wantDir && Usage(s.fs, y) == 0 {
        UnusedFileNotHeld(s, y);
      }
      var gone: set<Id> := if Usage(s.fs, y) > 0 then {} else {y};
      assert VisibleChange(s.fs.nodes, Cleared(s.fs, dp, dst).nodes, {dp}, gone, ReplacedAt(s.fs, dp, dst));
    } else {
      SameIsChange(s.fs.nodes);
      assert VisibleChange(s.fs.nodes, s.fs.nodes, {dp}, {}, ReplacedAt(s.fs, dp, dst));
    }
  }

  lemma {:induction false} MoveEdit(s: State, sp: Id, src: Bytes, dp: Id, dst: Bytes, x: Id)
    requires Inv(s) && Clearable(s, dp, dst) && sp in s.fs.nodes && !Hidden(s.fs.nodes, sp) && src != STORE_DIR
    requires var mid := Cleared(s.fs, dp, dst).nodes;
             && Tree(mid) && Named(mid, sp, src, x) && IsDir(mid, dp)
             && (IsDir(mid, x) ==> sp == dp) && forall y :: !Named(mid, dp, dst, y)
    ensures Cleared(s.fs, dp, dst).usages == s.fs.usages
    ensures SafeEdit(s, Moved(Cleared(s.fs, dp, dst).nodes, sp, src, dp, dst, x), {sp, dp}, ReplacedAt(s.fs, dp, dst))
  {
    ClearVisible(s, dp, dst);
    var gone :| VisibleChange(s.fs.nodes, Cleared(s.fs, dp, dst).nodes, {dp}, gone, ReplacedAt(s.fs, dp, dst)) && NoneHeld(s, gone);
    MoveAfterClear(s.fs.nodes, Cleared(s.fs, dp, dst).nodes, sp, src, dp, dst, x, gone, ReplacedAt(s.fs, dp, dst));
  }

  /** The clearing and the move are one edit of the visible tree that takes nothing a handle names. */
  lemma {:induction false} RenameEdits(s: State, srcH: nat, src: Bytes, dstH: nat, dst: Bytes)
    requires Inv(s) && RenameTx(s, srcH, src, dstH, dst).Ok? && Permitted(s, Rename(srcH, src, dstH, dst))
    requires DirAt(s, srcH).Ok? && DirAt(s, dstH).Ok?
    requires FindNode(s.fs, DirAt(s, dstH).value.node, dst) != FindNode(s.fs, DirAt(s, srcH).value.node, src)
    ensures RenameNode(s.fs, DirAt(s, srcH).value.node, src, DirAt(s, dstH).value.node, dst).Ok?
    ensures var sp, dp := DirAt(s, srcH).value.node, DirAt(s, dstH).value.node;
            var fs1 := RenameNode(s.fs, sp, src, dp, dst).value;
            FsOk(fs1) && fs1.usages == s.fs.usages && SafeEdit(s, fs1.nodes, {sp, dp}, ReplacedAt(s.fs, dp, dst))
  {
    RenameSplit(s, srcH, src, dstH, dst);
    var sp, dp := DirAt(s, srcH).value.node, DirAt(s, dstH).value.node;
    RenameForm(s.fs, sp, src, dp, dst);
    RenameKeepsOk(s.fs, sp, src, dp, dst);
    MoveEdit(s, sp, src, dp, dst, FindNode(s.fs, sp, src).value);
  }

  lemma {:induction false} RenamePurgeable(s: State, srcH: nat, src: Bytes, dstH: nat, dst: Bytes)
    requires Inv(s) && RenameTx(s, srcH, src, dstH, dst).Ok? && Permitted(s, Rename(srcH, src, dstH, dst))
    requires DirAt(s, srcH).Ok? && DirAt(s, dstH).Ok?
    requires FindNode(s.fs, DirAt(s, dstH).value.node, dst) != FindNode(s.fs, DirAt(s, srcH).value.node, src)
    ensures var sp, dp := DirAt(s, srcH).value.node, DirAt(s, dstH).value.node;
            var fs1 := RenameNode(s.fs, sp, src, dp, dst);
            fs1.Ok? && Purgeable(s, fs1.value, {sp, dp}, FindNode(s.fs, dp, dst), RenameTx(s, srcH, src, dstH, dst))
  {
    RenameSplit(s, srcH, src, dstH, dst);
    RenameEdits(s, srcH, src, dstH, dst);
    var sp, dp := DirAt(s, srcH).value.node, DirAt(s, dstH).value.node;
    MovePurgeable(s, RenameNode(s.fs, sp, src, dp, dst).value, sp, dp, dst, RenameTx(s, srcH, src, dstH, dst));
  }

  lemma {:induction false} MovePurgeable(s: State, fs1: Fs, sp: Id, dp: Id, dst: Bytes, out: Result<Fs>)
    requires FsOk(fs1) && fs1.usages == s.fs.usages && SafeEdit(s, fs1.nodes, {sp, dp}, ReplacedAt(s.fs, dp, dst))
    requires !Hidden(s.fs.nodes, sp) && !Hidden(s.fs.nodes, dp)
    requires FindNode(s.fs, dp, dst).Ok? ==> 0 < FindNode(s.fs, dp, dst).value < ID_LIMIT
    requires out == if FindNode(s.fs, dp, dst).Ok? then PurgeAttrs(fs1, FindNode(s.fs, dp, dst).value) else Ok(fs1)
    ensures Purgeable(s, fs1, {sp, dp}, FindNode(s.fs, dp, dst), out)
  {
  }

  /** A rename that moves something, with the purge behind it. */
  lemma {:induction false} RenameStepped(s: State, srcH: nat, src: Bytes, dstH: nat, dst: Bytes)
    requires Inv(s) && RenameTx(s, srcH, src, dstH, dst).Ok? && Permitted(s, Rename(srcH, src, dstH, dst))
    requires DirAt(s, srcH).Ok? && DirAt(s, dstH).Ok?
    requires FindNode(s.fs, DirAt(s, dstH).value.node, dst) != FindNode(s.fs, DirAt(s, srcH).value.node, src)
    ensures RenameNode(s.fs, DirAt(s, srcH).value.node, src, DirAt(s, dstH).value.node, dst).Ok?
    ensures var fs', sp, dp := RenameTx(s, srcH, src, dstH, dst).value, DirAt(s, srcH).value.node, DirAt(s, dstH).value.node;
            var fs1, found := RenameNode(s.fs, sp, src, dp, dst).value, FindNode(s.fs, dp, dst);
            && Stepped(s, s.(fs := fs'), {sp, dp}, if found.Ok? then {found.value} else {})
            && (found.Ok? ==> Blob(fs'.nodes, found.value) == [])
            && VisibleEntries(fs'.nodes, sp) == VisibleEntries(fs1.nodes, sp) && VisibleEntries(fs'.nodes, dp) == VisibleEntries(fs1.nodes, dp)
  {
    var sp, dp := DirAt(s, srcH).value.node, DirAt(s, dstH).value.node;
    RenamePurgeable(s, srcH, src, dstH, dst);
    EditMayPurge(s, RenameNode(s.fs, sp, src, dp, dst).value, {sp, dp}, FindNode(s.fs, dp, dst), RenameTx(s, srcH, src, dstH, dst));
  }

  lemma {:induction false} RenameKeeps(s: State, srcH: nat, src: Bytes, dstH: nat, dst: Bytes)
    requires Inv(s) && RenameTx(s, srcH, src, dstH, dst).Ok? && Permitted(s, Rename(srcH, src, dstH, dst))
    ensures DirAt(s, srcH).Ok? && DirAt(s, dstH).Ok?
    ensures var fs', sp, dp := RenameTx(s, srcH, src, dstH, dst).value, DirAt(s, srcH).value.node, DirAt(s, dstH).value.node;
            var found := FindNode(s.fs, dp, dst);
            var replaced := found.Ok? && found != FindNode(s.fs, sp, src);
            && Stepped(s, s.(fs := fs'), {sp, dp}, if replaced then {found.value} else {})
            && (replaced ==> Blob(fs'.nodes, found.value) == [])
  {
    RenameSplit(s, srcH, src, dstH, dst);
    var sp, dp := DirAt(s, srcH).value.node, DirAt(s, dstH).value.node;
    var found := FindNode(s.fs, dp, dst);
    if found != FindNode(s.fs, sp, src) {
      RenameStepped(s, srcH, src, dstH, dst);
    } else {
      Unchanged(s, {sp, dp}, {});
    }
  }
}
