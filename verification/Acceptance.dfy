/**
 When the service accepts a request. `Authorized` is the table of rights each verb needs of its handles,
 `Acceptable` what it asks of the names, the nodes and the attributes there are; an accepted request is
 one that is both, and a request that lacks a right changes nothing and is answered as its verb denies.
 */
module Acceptance {
  import opened Basics
  import opened Engine
  import opened Namespace
  import opened AttrStore
  import opened Store
  import opened Visible
  import opened Rights
  import opened Verbs
  import opened ServerInvariant
  import opened ServerSteps
  import AttrCodec

  predicate Holds(s: State, h: nat, needed: Mask) {
    EntryAt(s, h).Ok? && needed <= EntryAt(s, h).value.rights
  }

  predicate DirHolds(s: State, h: nat, needed: Mask) {
    Holds(s, h, needed) && EntryAt(s, h).value.DirEntry?
  }

  predicate FileHolds(s: State, h: nat, needed: Mask) {
    Holds(s, h, needed) && EntryAt(s, h).value.FileEntry?
  }

  /** The rights a request needs, on the handles it names. */
  predicate Authorized(s: State, req: Request) {
    match req
    case OpenFile(h, _) => DirHolds(s, h, {READ}) || DirHolds(s, h, {WRITE})
    case OpenDir(h, _, requested) => DirHolds(s, h, {DESCEND} + Root(requested))
    case MakeDir(h, _, requested, _) => DirHolds(s, h, {CREATE, DESCEND} + Root(requested))
    case CreateFile(h, _, _) => DirHolds(s, h, {CREATE})
    case Read(h, _, _) => FileHolds(s, h, {READ})
    case Write(h, _, _) => FileHolds(s, h, {WRITE})
    case Truncate(h, _) => FileHolds(s, h, {WRITE})
    case Rename(h, _, dstH, _) => DirHolds(s, h, {REMOVE}) && DirHolds(s, dstH, {CREATE})
    case Unlink(h, _) => DirHolds(s, h, {REMOVE})
    case Rmdir(h, _) => DirHolds(s, h, {REMOVE})
    case ReadDir(h, _, _) => DirHolds(s, h, {ENUMERATE})
    case GetXattr(h, _, _) => Holds(s, h, {READ})
    case ListXattr(h, _) => Holds(s, h, {READ})
    case SetXattr(h, _, _, _) => Holds(s, h, {WRITE})
    case RemoveXattr(h, _) => Holds(s, h, {WRITE})
    case Close(h) => h != 0 && Holds(s, h, {})
  }

  /** The visible names of the directory a handle names. */
  function Seen(s: State, h: nat): map<Bytes, Id> {
    if DirAt(s, h).Ok? then VisibleEntries(s.fs.nodes, DirAt(s, h).value.node) else map[]
  }

  predicate SeesFile(s: State, h: nat, name: Bytes) {
    IsComponent(name) && name in Seen(s, h) && IsFile(s.fs.nodes, Seen(s, h)[name])
  }

  predicate SeesDir(s: State, h: nat, name: Bytes) {
    IsComponent(name) && name in Seen(s, h) && IsDir(s.fs.nodes, Seen(s, h)[name])
  }

  /** A name and a node id for something new. */
  predicate Creatable(s: State, h: nat, name: Bytes, hint: Id) {
    IsComponent(name) && |name| <= NAME_MAX && name !in Seen(s, h) && FreeId(s.fs, hint)
  }

  /** `x` may take the place of `y`: files replace files, directories empty directories. */
  predicate Replaces(nodes: map<Id, Node>, x: Id, y: Id) {
    (IsDir(nodes, x) <==> IsDir(nodes, y)) && (IsDir(nodes, y) ==> VisibleEntries(nodes, y) == map[])
  }

  /** The attributes of the node a handle names. */
  function AttrsAt(s: State, h: nat): seq<AttrCodec.Attr> {
    if EntryAt(s, h).Ok? then AttrsOf(s.fs.nodes, EntryAt(s, h).value.node) else []
  }

  predicate HasStore(nodes: map<Id, Node>) {
    ROOT in nodes && nodes[ROOT].Dir? && STORE_DIR in nodes[ROOT].entries
  }

  predicate Acceptable(s: State, req: Request) {
    match req
    case OpenFile(h, name) => SeesFile(s, h, name)
    case OpenDir(h, name, _) => SeesDir(s, h, name)
    case MakeDir(h, name, _, hint) => Creatable(s, h, name, hint)
    case CreateFile(h, name, hint) => Creatable(s, h, name, hint)
    case Unlink(h, name) => SeesFile(s, h, name)
    case Rmdir(h, name) => SeesDir(s, h, name) && VisibleEntries(s.fs.nodes, Seen(s, h)[name]) == map[]
    case Rename(h, name, dstH, dstName) =>
      && IsComponent(name) && IsComponent(dstName) && name in Seen(s, h)
      && var x := Seen(s, h)[name];
         && (IsDir(s.fs.nodes, x) ==> DirAt(s, h).Ok? && DirAt(s, dstH).Ok? && DirAt(s, h).value.node == DirAt(s, dstH).value.node)
         && if dstName !in Seen(s, dstH) then |dstName| <= NAME_MAX
            else Seen(s, dstH)[dstName] == x || (|dstName| <= NAME_MAX && Replaces(s.fs.nodes, x, Seen(s, dstH)[dstName]))
    case GetXattr(h, name, room) =>
      && AttrCodec.ValidName(name)
      && var found := AttrCodec.Lookup(AttrsAt(s, h), name);
         found.Some? && |found.value.value| <= room
    case SetXattr(h, a, dirHint, fileHint) =>
      && AttrCodec.Storable(a)
      && (AttrCodec.Lookup(AttrsAt(s, h), a.name).Some? || |AttrsAt(s, h)| < AttrCodec.MAX_COUNT)
      && (AttrsAt(s, h) == [] ==> FreeId(s.fs, fileHint))
      && (!HasStore(s.fs.nodes) ==> FreeId(s.fs, dirHint) && dirHint != fileHint)
    case RemoveXattr(h, name) => AttrCodec.ValidName(name) && AttrCodec.Lookup(AttrsAt(s, h), name).Some?
    case _ => true
  }

  // --- lookups ---

  /** What the engine finds under a client's name is what the client sees there. */
  lemma {:induction false} FindIsSeen(s: State, h: nat, name: Bytes)
    requires Inv(s) && DirAt(s, h).Ok? && IsComponent(name)
    ensures FindNode(s.fs, DirAt(s, h).value.node, name) == if name in Seen(s, h) then Ok(Seen(s, h)[name]) else Err(ENOENT)
    ensures name in Seen(s, h) ==> Named(s.fs.nodes, DirAt(s, h).value.node, name, Seen(s, h)[name])
    ensures name in Seen(s, h) ==> Seen(s, h)[name] in s.fs.nodes && Seen(s, h)[name] != ROOT
    ensures IsDir(s.fs.nodes, DirAt(s, h).value.node) && !Hidden(s.fs.nodes, DirAt(s, h).value.node)
  {
    var d := DirAt(s, h).value.node;
    assert EntryOk(s.fs.nodes, DirAt(s, h).value);
    if name in Seen(s, h) {
      assert Named(s.fs.nodes, d, name, Seen(s, h)[name]);
    }
  }

  lemma {:induction false} RightsOf(s: State, h: nat, requested: Mask)
    requires DirAt(s, h).Ok? && DirAt(s, h).value.rights <= ALL
    ensures Attenuate(DirAt(s, h).value.rights, requested) == Root(requested) <==> DirHolds(s, h, Root(requested))
  {
    var rights := DirAt(s, h).value.rights;
    if Root(requested) <= rights {
      assert rights * requested == requested * ALL;
    }
  }

  lemma {:induction false} OpenAccepted(s: State, req: Request)
    requires Inv(s) && (req.OpenFile? || req.OpenDir?)
    ensures !Step(s, req).1.Fail? <==> Authorized(s, req) && Acceptable(s, req)
  {
    if IsComponent(req.name) && DirAt(s, req.h).Ok? {
      assert EntryOk(s.fs.nodes, DirAt(s, req.h).value);
      FindIsSeen(s, req.h, req.name);
      if req.OpenDir? {
        RightsOf(s, req.h, req.requested);
      }
    }
  }

  lemma {:induction false} CreateAccepted(s: State, req: Request)
    requires Inv(s) && (req.MakeDir? || req.CreateFile?)
    ensures !Step(s, req).1.Fail? <==> Authorized(s, req) && Acceptable(s, req)
  {
    if IsComponent(req.name) && DirAt(s, req.h).Ok? {
      assert EntryOk(s.fs.nodes, DirAt(s, req.h).value);
      FindIsSeen(s, req.h, req.name);
      if req.MakeDir? {
        RightsOf(s, req.h, req.requested);
      }
    }
  }

  // --- removals ---

  /** Behind an edit of the visible tree the purge always succeeds. */
  lemma {:induction false} PurgeAccepted(s: State, fs1: Fs, touched: set<Id>, gone: set<Id>, lost: set<Id>, id: Id)
    requires Inv(s) && FsOk(fs1) && fs1.usages == s.fs.usages && 0 < id < ID_LIMIT
    requires VisibleChange(s.fs.nodes, fs1.nodes, touched, gone, lost)
    ensures PurgeAttrs(fs1, id).Ok?
  {
    UsedIsVisible(s);
    SameStoreKeeps(s.fs.nodes, fs1.nodes);
    PurgeEffect(fs1, id);
  }

  lemma {:induction false} RemoveTxAccepted(s: State, h: nat, name: Bytes, wantDir: bool)
    requires Inv(s) && DirHolds(s, h, {REMOVE}) && IsComponent(name)
    requires RemoveNode(s.fs, DirAt(s, h).value.node, name, wantDir).Ok?
    ensures RemoveTx(s, h, name, wantDir).Ok?
  {
    var d := DirAt(s, h).value.node;
    FindIsSeen(s, h, name);
    RemoveVisible(s.fs, d, name, wantDir);
    RemoveKeepsOk(s.fs, d, name, wantDir);
    var (fs1, gone) := RemoveNode(s.fs, d, name, wantDir).value;
    var freed: set<Id> := if Usage(s.fs, gone.value) > 0 then {} else {gone.value};
    PurgeAccepted(s, fs1, {d}, freed, {gone.value}, gone.value);
  }

  lemma {:induction false} RemoveAccepted(s: State, req: Request)
    requires Inv(s) && (req.Unlink? || req.Rmdir?)
    ensures !Step(s, req).1.Fail? <==> Authorized(s, req) && Acceptable(s, req)
  {
    var wantDir := req.Rmdir?;
    if IsComponent(req.name) && DirHolds(s, req.h, {REMOVE}) {
      FindIsSeen(s, req.h, req.name);
      if RemoveNode(s.fs, DirAt(s, req.h).value.node, req.name, wantDir).Ok? {
        RemoveTxAccepted(s, req.h, req.name, wantDir);
      }
    }
  }

  // --- rename ---

  lemma {:induction false} DestinationReplaces(s: State, dstH: nat, dst: Bytes)
    requires Inv(s) && DirAt(s, dstH).Ok? && IsComponent(dst)
    ensures DestinationClears(s.fs, DirAt(s, dstH).value.node, dst) <==>
            (dst in Seen(s, dstH) && IsDir(s.fs.nodes, Seen(s, dstH)[dst]) ==> VisibleEntries(s.fs.nodes, Seen(s, dstH)[dst]) == map[])
  {
    FindIsSeen(s, dstH, dst);
  }

  /** The purge behind a rename-over succeeds. */
  lemma {:induction false} RenamePurges(s: State, sp: Id, src: Bytes, dp: Id, dst: Bytes, x: Id, y: Id)
    requires Inv(s) && IsDir(s.fs.nodes, dp) && !Hidden(s.fs.nodes, sp) && !Hidden(s.fs.nodes, dp)
    requires src != STORE_DIR && dst != STORE_DIR && (IsDir(s.fs.nodes, x) ==> sp == dp)
    requires FindNode(s.fs, sp, src) == Ok(x) && FindNode(s.fs, dp, dst) == Ok(y) && x != y && 0 < y < ID_LIMIT
    requires RenameNode(s.fs, sp, src, dp, dst).Ok? && DestinationClears(s.fs, dp, dst)
    ensures PurgeAttrs(RenameNode(s.fs, sp, src, dp, dst).value, y).Ok?
  {
    RenameForm(s.fs, sp, src, dp, dst);
    RenameKeepsOk(s.fs, sp, src, dp, dst);
    ClearingStep(s.fs, dp, dst);
    RemoveVisible(s.fs, dp, dst, s.fs.nodes[y].Dir?);
    var mid := Cleared(s.fs, dp, dst);
    var freed: set<Id> := if Usage(s.fs, y) > 0 then {} else {y};
    MoveAfterClear(s.fs.nodes, mid.nodes, sp, src, dp, dst, x, freed, {y});
    PurgeAccepted(s, RenameNode(s.fs, sp, src, dp, dst).value, {sp, dp}, freed, {y}, y);
  }

  lemma {:induction false} RenameAccepted(s: State, req: Request)
    requires Inv(s) && req.Rename?
    ensures !Step(s, req).1.Fail? <==> Authorized(s, req) && Acceptable(s, req)
  {
    var h, dstH := req.h, req.dstH;
    if IsComponent(req.name) && IsComponent(req.dstName) && Authorized(s, req) {
      FindIsSeen(s, h, req.name);
      FindIsSeen(s, dstH, req.dstName);
      DestinationReplaces(s, dstH, req.dstName);
      if req.name in Seen(s, h) {
        RenameTxAccepted(s, h, req.name, dstH, req.dstName, Seen(s, h)[req.name]);
      }
    }
  }

  lemma {:induction false} RenameTxAccepted(s: State, h: nat, src: Bytes, dstH: nat, dst: Bytes, x: Id)
    requires Inv(s) && IsComponent(src) && IsComponent(dst) && DirHolds(s, h, {REMOVE}) && DirHolds(s, dstH, {CREATE})
    requires FindNode(s.fs, DirAt(s, h).value.node, src) == Ok(x)
    ensures RenameTx(s, h, src, dstH, dst).Ok? <==>
            var sp, dp := DirAt(s, h).value.node, DirAt(s, dstH).value.node;
            var found := FindNode(s.fs, dp, dst);
            && (IsDir(s.fs.nodes, x) ==> sp == dp)
            && (found == Ok(x) || (|dst| <= NAME_MAX && DestinationClears(s.fs, dp, dst)
                                   && (found.Ok? ==> (IsDir(s.fs.nodes, x) <==> IsDir(s.fs.nodes, found.value)))))
  {
    var sp, dp := DirAt(s, h).value.node, DirAt(s, dstH).value.node;
    var found := FindNode(s.fs, dp, dst);
    FindIsSeen(s, h, src);
    FindIsSeen(s, dstH, dst);
    if (IsDir(s.fs.nodes, x) ==> sp == dp) && found != Ok(x) {
      RenameNodeIff(s.fs, sp, src, dp, dst, x);
      if found.Ok? && RenameNode(s.fs, sp, src, dp, dst).Ok? {
        RenamePurges(s, sp, src, dp, dst, x, found.value);
      }
    }
  }

  // --- attributes ---

  lemma {:induction false} StoreCreated(fs: Fs, hint: Id)
    requires FsOk(fs) && StoreOk(fs.nodes) && EnsureStore(fs, hint).Ok?
    ensures var (fs1, st) := EnsureStore(fs, hint).value;
            && IsDir(fs1.nodes, st) && IsStore(fs1.nodes, st)
            && (HasStore(fs.nodes) ==> fs1 == fs)
            && (!HasStore(fs.nodes) ==> fs1.nodes.Keys == fs.nodes.Keys + {hint} && fs1.nodes[st].entries == map[])
  {
    assert HasStore(fs.nodes) ==> Named(fs.nodes, ROOT, STORE_DIR, fs.nodes[ROOT].entries[STORE_DIR]);
  }

  lemma {:induction false} EnsureStoreIff(fs: Fs, hint: Id)
    requires FsOk(fs) && StoreOk(fs.nodes)
    ensures EnsureStore(fs, hint).Ok? <==> HasStore(fs.nodes) || FreeId(fs, hint)
  {
    assert HasStore(fs.nodes) ==> Named(fs.nodes, ROOT, STORE_DIR, fs.nodes[ROOT].entries[STORE_DIR]);
    assert COLON !in STORE_DIR && |STORE_DIR| == 11;
  }

  lemma {:induction false} EnsureBlobIff(fs: Fs, st: Id, id: Id, hint: Id)
    requires Tree(fs.nodes) && IsDir(fs.nodes, st)
    ensures EnsureBlob(fs, st, id, hint).Ok? <==> FileName(id) in fs.nodes[st].entries || FreeId(fs, hint)
  {
    assert FileName(id) in fs.nodes[st].entries ==> Named(fs.nodes, st, FileName(id), fs.nodes[st].entries[FileName(id)]);
    HexHasNoColon(id, 8);
  }

  /** Writing a blob needs ids only for what is missing: the store directory, the blob file. */
  lemma {:induction false} WriteAttrsIff(fs: Fs, id: Id, blob: Bytes, dirHint: Id, fileHint: Id)
    requires FsOk(fs) && StoreOk(fs.nodes) && 0 < id < ID_LIMIT && blob != []
    ensures WriteAttrs(fs, id, blob, dirHint, fileHint).Ok? <==>
            && (Blob(fs.nodes, id) == [] ==> FreeId(fs, fileHint))
            && (!HasStore(fs.nodes) ==> FreeId(fs, dirHint) && dirHint != fileHint)
  {
    EnsureStoreIff(fs, dirHint);
    if EnsureStore(fs, dirHint).Ok? {
      StoreCreated(fs, dirHint);
      EnsureStoreEffect(fs, dirHint);
      var (fs1, st) := EnsureStore(fs, dirHint).value;
      EnsureBlobIff(fs1, st, id, fileHint);
      BlobIsThere(fs1.nodes, st, id);
      if EnsureBlob(fs1, st, id, fileHint).Ok? {
        EnsureBlobEffect(fs1, st, id, fileHint);
        var (fs2, x) := EnsureBlob(fs1, st, id, fileHint).value;
        ReplaceData(fs2, x, blob);
      }
    }
  }

  /** A node has a blob exactly when the store has a file for it. */
  lemma {:induction false} BlobIsThere(nodes: map<Id, Node>, st: Id, id: Id)
    requires Tree(nodes) && IsStore(nodes, st) && IsDir(nodes, st)
    requires StoreOk(nodes) || nodes[st].entries == map[]
    ensures Blob(nodes, id) == [] <==> FileName(id) !in nodes[st].entries
  {
    if FileName(id) in nodes[st].entries {
      assert Named(nodes, st, FileName(id), nodes[st].entries[FileName(id)]);
    }
  }

  lemma {:induction false} AttrReadAccepted(s: State, req: Request)
    requires Inv(s) && (req.GetXattr? || req.ListXattr?)
    ensures !Step(s, req).1.Fail? <==> Authorized(s, req) && Acceptable(s, req)
  {
    if EntryAt(s, req.h).Ok? {
      BlobIsGood(s, EntryAt(s, req.h).value.node);
    }
  }

  lemma {:induction false} SetAccepted(s: State, req: Request)
    requires Inv(s) && req.SetXattr?
    ensures !Step(s, req).1.Fail? <==> Authorized(s, req) && Acceptable(s, req)
  {
    var a := req.attr;
    if Authorized(s, req) && AttrCodec.Storable(a) {
      var x := EntryAt(s, req.h).value.node;
      var attrs := AttrsOf(s.fs.nodes, x);
      assert EntryOk(s.fs.nodes, EntryAt(s, req.h).value);
      BlobIsGood(s, x);
      if AttrCodec.Lookup(attrs, a.name).Some? || |attrs| < AttrCodec.MAX_COUNT {
        AttrCodec.PutKeepsGood(attrs, a);
        AttrCodec.EncodedLength(AttrCodec.Put(attrs, a));
        WriteAttrsIff(s.fs, x, AttrCodec.Encode(AttrCodec.Put(attrs, a)), req.dirHint, req.fileHint);
      }
    }
  }

  lemma {:induction false} RemoveAttrAccepted(s: State, req: Request)
    requires Inv(s) && req.RemoveXattr?
    ensures !Step(s, req).1.Fail? <==> Authorized(s, req) && Acceptable(s, req)
  {
    if Authorized(s, req) && AttrCodec.ValidName(req.name) {
      var x := EntryAt(s, req.h).value.node;
      var attrs := AttrsOf(s.fs.nodes, x);
      assert EntryOk(s.fs.nodes, EntryAt(s, req.h).value);
      BlobIsGood(s, x);
      AttrCodec.WithoutKeepsGood(attrs, req.name);
      if AttrCodec.Lookup(attrs, req.name).Some? {
        WriteLeftAccepted(s, x, AttrCodec.Without(attrs, req.name));
      }
    }
  }

  lemma {:induction false} WriteLeftAccepted(s: State, x: Id, left: seq<AttrCodec.Attr>)
    requires Inv(s) && x in s.fs.nodes && AttrCodec.GoodList(left) && AttrsOf(s.fs.nodes, x) != []
    ensures WriteAttrs(s.fs, x, AttrCodec.Encode(left), 0, 0).Ok?
  {
    BlobIsGood(s, x);
    if left == [] {
      UsedIsVisible(s);
      PurgeEffect(s.fs, x);
    } else {
      AttrCodec.EncodedLength(left);
      WriteAttrsIff(s.fs, x, AttrCodec.Encode(left), 0, 0);
    }
  }

  // --- data, listings and close ---

  lemma {:induction false} PlainAccepted(s: State, req: Request)
    requires Inv(s) && (req.Read? || req.Write? || req.Truncate? || req.ReadDir? || req.Close?)
    ensures !Step(s, req).1.Fail? <==> Authorized(s, req)
  {
    if EntryAt(s, req.h).Ok? {
      assert EntryOk(s.fs.nodes, EntryAt(s, req.h).value);
      if req.Close? && EntryAt(s, req.h).value.FileEntry? {
        CloseCounts(s, req.h);
      }
    }
  }

  /** The service accepts exactly the requests that are authorized and acceptable. */
  lemma {:induction false} AcceptedIff(s: State, req: Request)
    requires Inv(s)
    ensures !Step(s, req).1.Fail? <==> Authorized(s, req) && Acceptable(s, req)
  {
    match req
    case OpenFile(_, _) => OpenAccepted(s, req);
    case OpenDir(_, _, _) => OpenAccepted(s, req);
    case MakeDir(_, _, _, _) => CreateAccepted(s, req);
    case CreateFile(_, _, _) => CreateAccepted(s, req);
    case Unlink(_, _) => RemoveAccepted(s, req);
    case Rmdir(_, _) => RemoveAccepted(s, req);
    case Rename(_, _, _, _) => RenameAccepted(s, req);
    case GetXattr(_, _, _) => AttrReadAccepted(s, req);
    case ListXattr(_, _) => AttrReadAccepted(s, req);
    case SetXattr(_, _, _, _) => SetAccepted(s, req);
    case RemoveXattr(_, _) => RemoveAttrAccepted(s, req);
    case _ => PlainAccepted(s, req);
  }

  // --- what an accepted open or creation hands out ---

  /** The entry a minting request asks for: the node under the name, and no right beyond the directory's. */
  function Wanted(s: State, req: Request): Entry
    requires (req.OpenFile? || req.OpenDir? || req.MakeDir? || req.CreateFile?) && Authorized(s, req) && Acceptable(s, req)
  {
    var rights := EntryAt(s, req.h).value.rights;
    match req
    case OpenFile(h, name) => FileEntry(Seen(s, h)[name], rights * {READ, WRITE})
    case OpenDir(h, name, requested) => DirEntry(Seen(s, h)[name], requested * ALL)
    case MakeDir(_, _, requested, hint) => DirEntry(hint, requested * ALL)
    case CreateFile(_, _, hint) => FileEntry(hint, rights * {READ, WRITE})
  }

  lemma {:induction false} Mints(s: State, req: Request)
    requires Inv(s) && (req.OpenFile? || req.OpenDir? || req.MakeDir? || req.CreateFile?)
    requires Authorized(s, req) && Acceptable(s, req)
    ensures var (s', reply) := Step(s, req);
            && reply.Handle? && EntryAt(s, reply.h) == Err(EBADF) && EntryAt(s', reply.h) == Ok(Wanted(s, req))
            && (forall j: nat :: j < reply.h ==> EntryAt(s, j).Ok?)
            && (forall j: nat :: j != reply.h ==> EntryAt(s', j) == EntryAt(s, j))
  {
    if req.OpenFile? || req.OpenDir? {
      OpenAccepted(s, req);
    } else {
      CreateAccepted(s, req);
    }
    FindIsSeen(s, req.h, req.name);
    MintsWanted(s, Wanted(s, req), req);
    LowestFreeSlot(s, Step(s, req).0, Wanted(s, req));
  }

  lemma {:induction false} LowestFreeSlot(s: State, s': State, e: Entry)
    requires s'.handles == Installed(s.handles, e)
    ensures var k := FirstFree(s.handles);
            && EntryAt(s, k) == Err(EBADF) && EntryAt(s', k) == Ok(e)
            && (forall j: nat :: j < k ==> EntryAt(s, j).Ok?)
            && (forall j: nat :: j != k ==> EntryAt(s', j) == EntryAt(s, j))
  {
  }

  lemma {:induction false} MintsWanted(s: State, e: Entry, req: Request)
    requires Inv(s) && (req.OpenFile? || req.OpenDir? || req.MakeDir? || req.CreateFile?) && !Step(s, req).1.Fail?
    requires Authorized(s, req) && Acceptable(s, req) && e == Wanted(s, req)
    requires FindNode(s.fs, DirAt(s, req.h).value.node, req.name) ==
             if req.name in Seen(s, req.h) then Ok(Seen(s, req.h)[req.name]) else Err(ENOENT)
    ensures Step(s, req).0.handles == Installed(s.handles, e) && Step(s, req).1 == Handle(FirstFree(s.handles))
  {
  }

  // --- denials ---

  /** The handles of the request are live and of the kind its verb works on. */
  predicate HandlesFit(s: State, req: Request) {
    if req.Read? || req.Write? || req.Truncate? then FileHolds(s, req.h, {})
    else if req.GetXattr? || req.SetXattr? || req.ListXattr? || req.RemoveXattr? || req.Close? then Holds(s, req.h, {})
    else DirHolds(s, req.h, {}) && (req.Rename? ==> DirHolds(s, req.dstH, {}))
  }

  predicate NamesFit(req: Request) {
    match req
    case OpenFile(_, name) => IsComponent(name)
    case OpenDir(_, name, _) => IsComponent(name)
    case MakeDir(_, name, _, _) => IsComponent(name)
    case CreateFile(_, name, _) => IsComponent(name)
    case Unlink(_, name) => IsComponent(name)
    case Rmdir(_, name) => IsComponent(name)
    case Rename(_, name, _, dstName) => IsComponent(name) && IsComponent(dstName)
    case GetXattr(_, name, _) => AttrCodec.ValidName(name)
    case SetXattr(_, a, _, _) => AttrCodec.ValidName(a.name) && |a.value| <= AttrCodec.MAX_VALUE
    case RemoveXattr(_, name) => AttrCodec.ValidName(name)
    case _ => true
  }

  /**
   How a missing right is answered. Through a directory that may not be looked into, a name is simply not
   there; what may not be changed is read-only; what may not be read is not open for reading; and asking for
   rights the parent lacks is not permitted, which is said only of a directory that is there.
   */
  function Denial(s: State, req: Request): Errno {
    match req
    case OpenFile(_, _) => ENOENT
    case OpenDir(h, name, _) =>
      if !DirHolds(s, h, {DESCEND}) || name !in Seen(s, h) then ENOENT
      else if IsFile(s.fs.nodes, Seen(s, h)[name]) then ENOTDIR
      else EPERM
    case MakeDir(h, _, _, _) => if DirHolds(s, h, {CREATE}) then EPERM else EROFS
    case ReadDir(_, _, _) => EPERM
    case Read(_, _, _) => EBADF
    case GetXattr(_, _, _) => EBADF
    case ListXattr(_, _) => EBADF
    case Close(_) => EINVAL
    case _ => EROFS
  }

  /** A request that lacks a right changes nothing and says so as its verb does. */
  lemma {:induction false} Denied(s: State, req: Request)
    requires Inv(s) && HandlesFit(s, req) && NamesFit(req) && !Authorized(s, req)
    ensures Step(s, req) == (s, Fail(Denial(s, req)))
  {
    if req.OpenDir? || req.MakeDir? {
      assert EntryOk(s.fs.nodes, DirAt(s, req.h).value);
      FindIsSeen(s, req.h, req.name);
      RightsOf(s, req.h, req.requested);
    }
  }
}
