/**
 How every request that is not accepted is refused: the error number, for each verb and each thing that can be
 wrong, in the order the service looks. The table speaks of handles, rights, visible names and attributes, with
 the limits written out; a request it has no entry for is accepted.
 */
module Refusals {
  import opened Basics
  import opened Engine
  import opened Namespace
  import opened AttrStore
  import opened Store
  import opened Visible
  import opened Rights
  import opened Verbs
  import opened ServerInvariant
  import opened ServerSteps
  import opened Acceptance
  import AttrCodec

  /** Not one path component: empty, `.`, `..`, the store's own name, or with a slash, a backslash, a colon or a NUL in it. */
  predicate Broken(name: Bytes) {
    || name == [] || name == [46] || name == [46, 46]
    || name == [46, 110, 105, 102, 101, 45, 97, 116, 116, 114, 115]
    || 47 in name || 92 in name || 58 in name || 0 in name
  }

  predicate BadAttrName(name: Bytes) {
    name == [] || |name| > 255 || 0 in name
  }

  /** The names a request gives for entries of directories. */
  function NamesGiven(req: Request): set<Bytes> {
    match req
    case OpenFile(_, name) => {name}
    case OpenDir(_, name, _) => {name}
    case MakeDir(_, name, _, _) => {name}
    case CreateFile(_, name, _) => {name}
    case Unlink(_, name) => {name}
    case Rmdir(_, name) => {name}
    case Rename(_, name, _, dstName) => {name, dstName}
    case _ => {}
  }

  /** A broken name is refused before anything else is looked at, whatever state the server is in. */
  lemma {:induction false} BrokenIsInvalid(s: State, req: Request, name: Bytes)
    requires name in NamesGiven(req)
    ensures Broken(name) ==> Step(s, req) == (s, Fail(EINVAL))
    ensures !Step(s, req).1.Fail? ==> !Broken(name)
  {
    BrokenIs(name);
    assert req.Rename? || req.name == name;
  }

  lemma {:induction false} BrokenIs(name: Bytes)
    ensures Broken(name) <==> !IsComponent(name)
  {
  }

  // --- the table ---

  function Or(first: Option<Errno>, second: Option<Errno>): Option<Errno> {
    if first.Some? then first else second
  }

  function Unless(good: bool, errno: Errno): Option<Errno> {
    if good then None else Some(errno)
  }

  function NotLive(s: State, h: nat): Option<Errno> { Unless(EntryAt(s, h).Ok?, EBADF) }

  function NotDir(s: State, h: nat): Option<Errno> {
    Or(NotLive(s, h), Unless(EntryAt(s, h).Ok? && EntryAt(s, h).value.DirEntry?, ENOTDIR))
  }

  function NotFile(s: State, h: nat): Option<Errno> {
    Or(NotLive(s, h), Unless(EntryAt(s, h).Ok? && EntryAt(s, h).value.FileEntry?, EISDIR))
  }

  /** A name under a directory handle: a broken name, then a handle that is no directory's, then a missing right. */
  function NotThrough(s: State, h: nat, name: Bytes, needed: Mask, errno: Errno): Option<Errno> {
    Or(Unless(!Broken(name), EINVAL), Or(NotDir(s, h), Unless(Holds(s, h, needed), errno)))
  }

  function Unseen(s: State, h: nat, name: Bytes): Option<Errno> { Unless(name in Seen(s, h), ENOENT) }

  predicate IsDirAt(s: State, h: nat, name: Bytes) { name in Seen(s, h) && IsDir(s.fs.nodes, Seen(s, h)[name]) }

  predicate IsFileAt(s: State, h: nat, name: Bytes) { name in Seen(s, h) && IsFile(s.fs.nodes, Seen(s, h)[name]) }

  /** Something visible is in the directory of that name. */
  predicate HasEntries(s: State, h: nat, name: Bytes) {
    IsDirAt(s, h, name) && VisibleEntries(s.fs.nodes, Seen(s, h)[name]) != map[]
  }

  /** An existing name, then one too long for a directory entry, then no node id left. */
  function NotNew(s: State, h: nat, name: Bytes, hint: Id): Option<Errno> {
    Or(Unless(name !in Seen(s, h), EEXIST), Or(Unless(|name| <= 252, EINVAL), Unless(FreeId(s.fs, hint), ENOSPC)))
  }

  function RenameRefusal(s: State, h: nat, src: Bytes, dstH: nat, dst: Bytes): Option<Errno> {
    Or(Unless(!Broken(src) && !Broken(dst), EINVAL),
    Or(NotDir(s, h), Or(NotDir(s, dstH),
    Or(Unless(Holds(s, h, {REMOVE}) && Holds(s, dstH, {CREATE}), EROFS),
    Or(Unseen(s, h, src),
    Or(Unless(IsDirAt(s, h, src) ==> EntryAt(s, h).Ok? && EntryAt(s, dstH).Ok? && EntryAt(s, h).value.node == EntryAt(s, dstH).value.node, EINVAL),
    if src in Seen(s, h) && dst in Seen(s, dstH) && Seen(s, h)[src] == Seen(s, dstH)[dst] then None
    else
      Or(Unless(dst in Seen(s, dstH) && IsDirAt(s, h, src) ==> IsDirAt(s, dstH, dst), ENOTDIR),
      Or(Unless(dst in Seen(s, dstH) && !IsDirAt(s, h, src) ==> !IsDirAt(s, dstH, dst), EISDIR),
      Or(Unless(!HasEntries(s, dstH, dst), ENOTEMPTY), Unless(|dst| <= 252, EINVAL))))))))))
  }

  function GetRefusal(s: State, h: nat, name: Bytes, room: nat): Option<Errno> {
    var found := AttrCodec.Lookup(AttrsAt(s, h), name);
    Or(Unless(!BadAttrName(name), ERANGE), Or(NotLive(s, h), Or(Unless(Holds(s, h, {READ}), EBADF),
    Or(Unless(found.Some?, ENODATA), Unless(found.Some? && |found.value.value| <= room, ERANGE)))))
  }

  function SetRefusal(s: State, h: nat, a: AttrCodec.Attr, dirHint: Id, fileHint: Id): Option<Errno> {
    var attrs := AttrsAt(s, h);
    Or(Unless(!BadAttrName(a.name), ERANGE), Or(Unless(|a.value| <= 3072, E2BIG),
    Or(NotLive(s, h), Or(Unless(Holds(s, h, {WRITE}), EROFS), Or(Unless(a.kind <= 0x7fff_ffff, EINVAL),
    Or(Unless(AttrCodec.Lookup(attrs, a.name).Some? || |attrs| < 16, ENOSPC),
    Unless((attrs == [] ==> FreeId(s.fs, fileHint)) && (!HasStore(s.fs.nodes) ==> FreeId(s.fs, dirHint) && dirHint != fileHint), ENOSPC)))))))
  }

  function Refusal(s: State, req: Request): Option<Errno> {
    match req
    case OpenFile(h, name) =>
      Or(Unless(!Broken(name), EINVAL), Or(NotDir(s, h), Or(Unless(Holds(s, h, {READ}) || Holds(s, h, {WRITE}), ENOENT),
      Or(Unseen(s, h, name), Unless(IsFileAt(s, h, name), EISDIR)))))
    case OpenDir(h, name, requested) =>
      Or(NotThrough(s, h, name, {DESCEND}, ENOENT), Or(Unseen(s, h, name),
      Or(Unless(IsDirAt(s, h, name), ENOTDIR), Unless(Holds(s, h, requested * ALL), EPERM))))
    case MakeDir(h, name, requested, hint) =>
      Or(NotThrough(s, h, name, {CREATE}, EROFS), Or(Unless(Holds(s, h, {DESCEND} + requested * ALL), EPERM), NotNew(s, h, name, hint)))
    case CreateFile(h, name, hint) => Or(NotThrough(s, h, name, {CREATE}, EROFS), NotNew(s, h, name, hint))
    case Read(h, _, _) => Or(NotFile(s, h), Unless(Holds(s, h, {READ}), EBADF))
    case Write(h, _, _) => Or(NotFile(s, h), Unless(Holds(s, h, {WRITE}), EROFS))
    case Truncate(h, _) => Or(NotFile(s, h), Unless(Holds(s, h, {WRITE}), EROFS))
    case Rename(h, name, dstH, dstName) => RenameRefusal(s, h, name, dstH, dstName)
    case Unlink(h, name) =>
      Or(NotThrough(s, h, name, {REMOVE}, EROFS), Or(Unseen(s, h, name), Unless(IsFileAt(s, h, name), EISDIR)))
    case Rmdir(h, name) =>
      Or(NotThrough(s, h, name, {REMOVE}, EROFS), Or(Unseen(s, h, name),
      Or(Unless(IsDirAt(s, h, name), ENOTDIR), Unless(!HasEntries(s, h, name), ENOTEMPTY))))
    case ReadDir(h, _, _) => Or(NotDir(s, h), Unless(Holds(s, h, {ENUMERATE}), EPERM))
    case GetXattr(h, name, room) => GetRefusal(s, h, name, room)
    case SetXattr(h, a, dirHint, fileHint) => SetRefusal(s, h, a, dirHint, fileHint)
    case ListXattr(h, _) => Unless(Holds(s, h, {READ}), EBADF)
    case RemoveXattr(h, name) =>
      Or(Unless(!BadAttrName(name), ERANGE), Or(NotLive(s, h), Or(Unless(Holds(s, h, {WRITE}), EROFS),
      Unless(AttrCodec.Lookup(AttrsAt(s, h), name).Some?, ENODATA))))
    case Close(h) => Or(Unless(h != 0, EINVAL), NotLive(s, h))
  }

  // --- the service follows it ---

  /** The reply is the refusal the table gives, or no refusal. */
  predicate AsRefused(refusal: Option<Errno>, reply: Reply) {
    if refusal.Some? then reply == Fail(refusal.value) else !reply.Fail?
  }

  lemma {:induction false} OpenRefused(s: State, req: Request)
    requires Inv(s) && (req.OpenFile? || req.OpenDir?)
    ensures AsRefused(Refusal(s, req), Step(s, req).1)
  {
    BrokenIs(req.name);
    if !Broken(req.name) && DirAt(s, req.h).Ok? {
      assert EntryOk(s.fs.nodes, DirAt(s, req.h).value);
      FindIsSeen(s, req.h, req.name);
      if req.OpenDir? {
        RightsOf(s, req.h, req.requested);
      }
    }
  }

  lemma {:induction false} MakeDirRefused(s: State, req: Request)
    requires Inv(s) && req.MakeDir?
    ensures AsRefused(Refusal(s, req), Step(s, req).1)
  {
    BrokenIs(req.name);
    if !Broken(req.name) && DirAt(s, req.h).Ok? {
      assert EntryOk(s.fs.nodes, DirAt(s, req.h).value);
      FindIsSeen(s, req.h, req.name);
      RightsOf(s, req.h, req.requested);
    }
  }

  lemma {:induction false} CreateFileRefused(s: State, req: Request)
    requires Inv(s) && req.CreateFile?
    ensures AsRefused(Refusal(s, req), Step(s, req).1)
  {
    BrokenIs(req.name);
    if !Broken(req.name) && DirAt(s, req.h).Ok? {
      assert EntryOk(s.fs.nodes, DirAt(s, req.h).value);
      FindIsSeen(s, req.h, req.name);
    }
  }

  lemma {:induction false} RemoveRefused(s: State, req: Request)
    requires Inv(s) && (req.Unlink? || req.Rmdir?)
    ensures AsRefused(Refusal(s, req), Step(s, req).1)
  {
    BrokenIs(req.name);
    if !Broken(req.name) && DirHolds(s, req.h, {REMOVE}) {
      FindIsSeen(s, req.h, req.name);
      if RemoveNode(s.fs, DirAt(s, req.h).value.node, req.name, req.Rmdir?).Ok? {
        RemoveTxAccepted(s, req.h, req.name, req.Rmdir?);
      }
    }
  }

  /** The engine's part of a rename: a destination directory with entries first, then a name too long. */
  lemma {:induction false} EngineRefuses(s: State, h: nat, src: Bytes, dstH: nat, dst: Bytes)
    requires Inv(s) && !Broken(dst) && DirAt(s, h).Ok? && DirAt(s, dstH).Ok? && src in Seen(s, h) && !Broken(src)
    requires RenameNode(s.fs, DirAt(s, h).value.node, src, DirAt(s, dstH).value.node, dst).Err?
    requires HasEntries(s, dstH, dst) || |dst| > 252
    ensures RenameNode(s.fs, DirAt(s, h).value.node, src, DirAt(s, dstH).value.node, dst).errno
            == if HasEntries(s, dstH, dst) then ENOTEMPTY else EINVAL
  {
    BrokenIs(src);
    BrokenIs(dst);
    FindIsSeen(s, h, src);
    FindIsSeen(s, dstH, dst);
  }

  lemma {:induction false} RenameTxRefused(s: State, h: nat, src: Bytes, dstH: nat, dst: Bytes)
    requires Inv(s) && !Broken(src) && !Broken(dst) && DirHolds(s, h, {REMOVE}) && DirHolds(s, dstH, {CREATE})
    requires RenameTx(s, h, src, dstH, dst).Err? && RenameRefusal(s, h, src, dstH, dst).Some?
    ensures RenameTx(s, h, src, dstH, dst).errno == RenameRefusal(s, h, src, dstH, dst).value
  {
    BrokenIs(src);
    BrokenIs(dst);
    FindIsSeen(s, h, src);
    FindIsSeen(s, dstH, dst);
    if src in Seen(s, h) && RenameNode(s.fs, DirAt(s, h).value.node, src, DirAt(s, dstH).value.node, dst).Err? {
      if HasEntries(s, dstH, dst) || |dst| > 252 {
        EngineRefuses(s, h, src, dstH, dst);
      }
    }
  }

  lemma {:induction false} RenameRefused(s: State, req: Request)
    requires Inv(s) && req.Rename?
    ensures AsRefused(Refusal(s, req), Step(s, req).1)
  {
    RenameAccepted(s, req);
    BrokenIs(req.name);
    BrokenIs(req.dstName);
    if !Broken(req.name) && !Broken(req.dstName) && Authorized(s, req) && Step(s, req).1.Fail? {
      RenameTxRefused(s, req.h, req.name, req.dstH, req.dstName);
    }
  }

  lemma {:induction false} AttrNameIs(name: Bytes)
    ensures BadAttrName(name) <==> !AttrCodec.ValidName(name)
  {
  }

  lemma {:induction false} AttrReadRefused(s: State, req: Request)
    requires Inv(s) && (req.GetXattr? || req.ListXattr?)
    ensures AsRefused(Refusal(s, req), Step(s, req).1)
  {
    if EntryAt(s, req.h).Ok? {
      BlobIsGood(s, EntryAt(s, req.h).value.node);
    }
  }

  /** A blob cannot be written only for want of a node id. */
  lemma {:induction false} WriteAttrsFails(fs: Fs, id: Id, blob: Bytes, dirHint: Id, fileHint: Id)
    requires FsOk(fs) && StoreOk(fs.nodes) && 0 < id < ID_LIMIT && blob != [] && WriteAttrs(fs, id, blob, dirHint, fileHint).Err?
    ensures WriteAttrs(fs, id, blob, dirHint, fileHint).errno == ENOSPC
  {
    assert COLON !in STORE_DIR && |STORE_DIR| == 11;
    assert HasStore(fs.nodes) ==> Named(fs.nodes, ROOT, STORE_DIR, fs.nodes[ROOT].entries[STORE_DIR]);
    if EnsureStore(fs, dirHint).Ok? {
      StoreCreated(fs, dirHint);
      EnsureStoreEffect(fs, dirHint);
      var (fs1, st) := EnsureStore(fs, dirHint).value;
      HexHasNoColon(id, 8);
      if EnsureBlob(fs1, st, id, fileHint).Ok? {
        EnsureBlobEffect(fs1, st, id, fileHint);
        ReplaceData(EnsureBlob(fs1, st, id, fileHint).value.0, EnsureBlob(fs1, st, id, fileHint).value.1, blob);
      }
    }
  }

  lemma {:induction false} SetTxRefused(s: State, h: nat, a: AttrCodec.Attr, dirHint: Id, fileHint: Id)
    requires Inv(s) && Holds(s, h, {WRITE}) && AttrCodec.ValidName(a.name) && |a.value| <= 3072
    requires SetXattrTx(s, h, a, dirHint, fileHint).Err?
    ensures SetXattrTx(s, h, a, dirHint, fileHint).errno == if a.kind <= 0x7fff_ffff then ENOSPC else EINVAL
  {
    var x, attrs := EntryAt(s, h).value.node, AttrsAt(s, h);
    assert EntryOk(s.fs.nodes, EntryAt(s, h).value);
    BlobIsGood(s, x);
    if a.kind <= 0x7fff_ffff && (AttrCodec.Lookup(attrs, a.name).Some? || |attrs| < 16) {
      AttrCodec.PutKeepsGood(attrs, a);
      AttrCodec.EncodedLength(AttrCodec.Put(attrs, a));
      WriteAttrsFails(s.fs, x, AttrCodec.Encode(AttrCodec.Put(attrs, a)), dirHint, fileHint);
    }
  }

  lemma {:induction false} SetRefused(s: State, req: Request)
    requires Inv(s) && req.SetXattr?
    ensures AsRefused(Refusal(s, req), Step(s, req).1)
  {
    SetAccepted(s, req);
    AttrNameIs(req.attr.name);
    if Holds(s, req.h, {WRITE}) && !BadAttrName(req.attr.name) && |req.attr.value| <= 3072 &&
       SetXattrTx(s, req.h, req.attr, req.dirHint, req.fileHint).Err?
    {
      SetTxRefused(s, req.h, req.attr, req.dirHint, req.fileHint);
    }
  }

  lemma {:induction false} RemoveAttrRefused(s: State, req: Request)
    requires Inv(s) && req.RemoveXattr?
    ensures AsRefused(Refusal(s, req), Step(s, req).1)
  {
    RemoveAttrAccepted(s, req);
    AttrNameIs(req.name);
    if EntryAt(s, req.h).Ok? {
      BlobIsGood(s, EntryAt(s, req.h).value.node);
      AttrCodec.WithoutKeepsGood(AttrsAt(s, req.h), req.name);
    }
  }

  lemma {:induction false} PlainRefused(s: State, req: Request)
    requires Inv(s) && (req.Read? || req.Write? || req.Truncate? || req.ReadDir? || req.Close?)
    ensures AsRefused(Refusal(s, req), Step(s, req).1)
  {
    PlainAccepted(s, req);
  }

  /** Every request is answered as the table says. */
  lemma {:induction false} RefusedAs(s: State, req: Request)
    requires Inv(s)
    ensures AsRefused(Refusal(s, req), Step(s, req).1)
  {
    match req
    case OpenFile(_, _) => OpenRefused(s, req);
    case OpenDir(_, _, _) => OpenRefused(s, req);
    case MakeDir(_, _, _, _) => MakeDirRefused(s, req);
    case CreateFile(_, _, _) => CreateFileRefused(s, req);
    case Unlink(_, _) => RemoveRefused(s, req);
    case Rmdir(_, _) => RemoveRefused(s, req);
    case Rename(_, _, _, _) => RenameRefused(s, req);
    case GetXattr(_, _, _) => AttrReadRefused(s, req);
    case ListXattr(_, _) => AttrReadRefused(s, req);
    case SetXattr(_, _, _, _) => SetRefused(s, req);
    case RemoveXattr(_, _) => RemoveAttrRefused(s, req);
    case _ => PlainRefused(s, req);
  }
}
