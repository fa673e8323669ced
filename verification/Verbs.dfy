/**
 The file service's verbs as functions of the server's state: the engine and the open-handle table.
 Each `...Tx` function is what one verb computes before the table or the engine is updated, with the
 checks in the source's order; `Step` applies one request. Which free node id the engine hands out
 is part of the request (`hint`), so a run of requests covers every engine choice.
 */
module Verbs {
  import opened Basics
  import opened Engine
  import AttrCodec
  import opened AttrStore
  import Listing
  import opened Rights

  /** What one handle names and what may be done through it. */
  datatype Entry =
    | DirEntry(node: Id, rights: Mask)
    | FileEntry(node: Id, rights: Mask)

  datatype State = State(fs: Fs, handles: seq<Option<Entry>>)

  datatype Request =
    | OpenFile(h: nat, name: Bytes)
    | OpenDir(h: nat, name: Bytes, requested: Mask)
    | MakeDir(h: nat, name: Bytes, requested: Mask, hint: Id)
    | CreateFile(h: nat, name: Bytes, hint: Id)
    | Read(h: nat, offset: nat, len: nat)
    | Write(h: nat, offset: nat, data: Bytes)
    | Truncate(h: nat, size: nat)
    | Rename(h: nat, name: Bytes, dstH: nat, dstName: Bytes)
    | Unlink(h: nat, name: Bytes)
    | Rmdir(h: nat, name: Bytes)
    | ReadDir(h: nat, cursor: nat, room: nat)
    | GetXattr(h: nat, name: Bytes, room: nat)
    | SetXattr(h: nat, attr: AttrCodec.Attr, dirHint: Id, fileHint: Id)
    | ListXattr(h: nat, room: nat)
    | RemoveXattr(h: nat, name: Bytes)
    | Close(h: nat)

  datatype Reply =
    | Handle(h: nat)
    | Done
    | Wrote(n: nat)
    | Data(bytes: Bytes)
    | Value(kind: nat, value: Bytes)
    | Names(names: seq<Bytes>)
    | Fail(errno: Errno)

  /** A mounted image with nothing open: slot 0 is the bound directory, with every right. */
  predicate Opened(s: State) {
    s.handles == [Some(DirEntry(ROOT, ALL))]
  }

  // --- the handle table ---

  function EntryAt(s: State, h: nat): Result<Entry> {
    if h < |s.handles| && s.handles[h].Some? then Ok(s.handles[h].value) else Err(EBADF)
  }

  function DirAt(s: State, h: nat): Result<Entry> {
    var e :- EntryAt(s, h);
    if e.DirEntry? then Ok(e) else Err(ENOTDIR)
  }

  function FileAt(s: State, h: nat, needed: Mask, refusal: Errno): Result<Id> {
    var e :- EntryAt(s, h);
    if e.DirEntry? then Err(EISDIR)
    else if Allows(e.rights, needed) then Ok(e.node)
    else Err(refusal)
  }

  function NodeAt(s: State, h: nat, needed: Mask, refusal: Errno): Result<Id> {
    var e :- EntryAt(s, h);
    if Allows(e.rights, needed) then Ok(e.node) else Err(refusal)
  }

  function FirstFree(handles: seq<Option<Entry>>): (i: nat)
    ensures i <= |handles|
    ensures i < |handles| ==> handles[i].None?
    ensures forall j :: 0 <= j < i ==> handles[j].Some?
  {
    if handles == [] || handles[0].None? then 0 else 1 + FirstFree(handles[1..])
  }

  /** The table after minting a handle: a freed slot is reused before the table grows. */
  function Installed(handles: seq<Option<Entry>>, e: Entry): seq<Option<Entry>> {
    var i := FirstFree(handles);
    if i < |handles| then handles[i := Some(e)] else handles + [Some(e)]
  }

  // --- names ---

  const DOT: byte := 46
  const SLASH: byte := 47
  const BACKSLASH: byte := 92
  const NUL: byte := 0

  /** A single path component a client may name. */
  predicate IsComponent(name: Bytes) {
    && name != []
    && name != [DOT]
    && name != [DOT, DOT]
    && name != STORE_DIR
    && SLASH !in name
    && BACKSLASH !in name
    && COLON !in name
    && NUL !in name
  }

  function CheckComponent(name: Bytes): Result<()> {
    if IsComponent(name) then Ok(()) else Err(EINVAL)
  }

  // --- verbs that mint a handle ---

  function OpenFileTx(s: State, h: nat, name: Bytes): Result<(Fs, Entry)> {
    var _ :- CheckComponent(name);
    var d :- DirAt(s, h);
    if DeniesAll(d.rights, {READ, WRITE}) then
      Err(ENOENT)
    else
      var x :- FindNode(s.fs, d.node, name);
      if s.fs.nodes[x].Dir? then
        Err(EISDIR)
      else
        Ok((OnOpenNode(s.fs, x), FileEntry(x, Attenuate(d.rights, {READ, WRITE}))))
  }

  function OpenDirTx(s: State, h: nat, name: Bytes, requested: Mask): Result<(Fs, Entry)> {
    var _ :- CheckComponent(name);
    var d :- DirAt(s, h);
    if !Allows(d.rights, {DESCEND}) then
      Err(ENOENT)
    else
      var x :- FindNode(s.fs, d.node, name);
      var granted := Attenuate(d.rights, requested);
      if s.fs.nodes[x].File? then Err(ENOTDIR)
      else if granted != Root(requested) then Err(EPERM)
      else Ok((s.fs, DirEntry(x, granted)))
  }

  function MakeDirTx(s: State, h: nat, name: Bytes, requested: Mask, hint: Id): Result<(Fs, Entry)> {
    var _ :- CheckComponent(name);
    var d :- DirAt(s, h);
    var granted := Attenuate(d.rights, requested);
    if !Allows(d.rights, {CREATE}) then Err(EROFS)
    else if !Allows(d.rights, {DESCEND}) then Err(EPERM)
    else if granted != Root(requested) then Err(EPERM)
    else if FindNode(s.fs, d.node, name).Ok? then Err(EEXIST)
    else
      var (fs, x) :- CreateNode(s.fs, d.node, name, true, hint);
      Ok((fs, DirEntry(x, granted)))
  }

  function CreateFileTx(s: State, h: nat, name: Bytes, hint: Id): Result<(Fs, Entry)> {
    var _ :- CheckComponent(name);
    var d :- DirAt(s, h);
    if !Allows(d.rights, {CREATE}) then Err(EROFS)
    else if FindNode(s.fs, d.node, name).Ok? then Err(EEXIST)
    else
      var (fs, x) :- CreateNode(s.fs, d.node, name, false, hint);
      Ok((OnOpenNode(fs, x), FileEntry(x, Attenuate(d.rights, {READ, WRITE}))))
  }

  // --- verbs that change the filesystem ---

  function WriteTx(s: State, h: nat, offset: nat, data: Bytes): Result<Fs> {
    var x :- FileAt(s, h, {WRITE}, EROFS);
    WriteNode(s.fs, x, offset, data)
  }

  function TruncateTx(s: State, h: nat, size: nat): Result<Fs> {
    var x :- FileAt(s, h, {WRITE}, EROFS);
    TruncateNode(s.fs, x, size)
  }

  function RenameTx(s: State, srcH: nat, src: Bytes, dstH: nat, dst: Bytes): Result<Fs> {
    var _ :- CheckComponent(src);
    var _ :- CheckComponent(dst);
    var from :- DirAt(s, srcH);
    var to :- DirAt(s, dstH);
    if !Allows(from.rights, {REMOVE}) || !Allows(to.rights, {CREATE}) then
      Err(EROFS)
    else
      var x :- FindNode(s.fs, from.node, src);
      var found := FindNode(s.fs, to.node, dst);
      var isDir := s.fs.nodes[x].Dir?;
      if isDir && from.node != to.node then Err(EINVAL)
      else if found == Ok(x) then Ok(s.fs)
      else if found.Ok? && s.fs.nodes[found.value].Dir? != isDir then
        Err(if isDir then ENOTDIR else EISDIR)
      else
        var fs :- RenameNode(s.fs, from.node, src, to.node, dst);
        if found.Ok? && s.fs.nodes[found.value].links == 1 then PurgeAttrs(fs, found.value) else Ok(fs)
  }

  /** `unlink` and `rmdir`: one removal, and the attributes of a node whose last name went. */
  function RemoveTx(s: State, h: nat, name: Bytes, wantDir: bool): Result<Fs> {
    var _ :- CheckComponent(name);
    var d :- DirAt(s, h);
    if !Allows(d.rights, {REMOVE}) then
      Err(EROFS)
    else
      var (fs, gone) :- RemoveNode(s.fs, d.node, name, wantDir);
      if gone.Some? then PurgeAttrs(fs, gone.value) else Ok(fs)
  }

  function SetXattrTx(s: State, h: nat, a: AttrCodec.Attr, dirHint: Id, fileHint: Id): Result<Fs> {
    if !AttrCodec.ValidName(a.name) then Err(ERANGE)
    else if |a.value| > AttrCodec.MAX_VALUE then Err(E2BIG)
    else
      var x :- NodeAt(s, h, {WRITE}, EROFS);
      var blob :- ReadAttrs(s.fs, x);
      var blob' :- AttrCodec.SetBlob(blob, a);
      WriteAttrs(s.fs, x, blob', dirHint, fileHint)
  }

  function RemoveXattrTx(s: State, h: nat, name: Bytes): Result<Fs> {
    if !AttrCodec.ValidName(name) then Err(ERANGE)
    else
      var x :- NodeAt(s, h, {WRITE}, EROFS);
      var blob :- ReadAttrs(s.fs, x);
      var blob' :- AttrCodec.RemoveBlob(blob, name);
      WriteAttrs(s.fs, x, blob', 0, 0)
  }

  // --- verbs that only read ---

  function ReadTx(s: State, h: nat, offset: nat, len: nat): Result<Bytes> {
    var x :- FileAt(s, h, {READ}, EBADF);
    ReadNode(s.fs, x, offset, len)
  }

  function GetXattrTx(s: State, h: nat, name: Bytes, room: nat): Result<AttrCodec.Attr> {
    if !AttrCodec.ValidName(name) then Err(ERANGE)
    else
      var x :- NodeAt(s, h, {READ}, EBADF);
      var blob :- ReadAttrs(s.fs, x);
      var found := AttrCodec.Lookup(AttrCodec.Records(blob), name);
      if found.None? then Err(ENODATA)
      else if room < |found.value.value| then Err(ERANGE)
      else Ok(found.value)
  }

  /** The names that fit in `room` bytes, each with its length byte; a name is never split. */
  function FittingNames(rs: seq<AttrCodec.Attr>, room: nat): seq<Bytes> {
    if rs == [] || !AttrCodec.ValidName(rs[0].name) || 1 + |rs[0].name| > room then []
    else [rs[0].name] + FittingNames(rs[1..], room - 1 - |rs[0].name|)
  }

  /** The bytes a list of names takes, each with its length byte. */
  function NameBytes(names: seq<Bytes>): nat {
    if names == [] then 0 else 1 + |names[0]| + NameBytes(names[1..])
  }

  /** The first names of the list: they fit in the room, and one more is no name or does not. */
  predicate FrontNames(rs: seq<AttrCodec.Attr>, room: nat, names: seq<Bytes>) {
    var n := |names|;
    && n <= |rs| && (forall i :: 0 <= i < n ==> names[i] == rs[i].name) && NameBytes(names) <= room
    && (n < |rs| ==> !AttrCodec.ValidName(rs[n].name) || NameBytes(names) + 1 + |rs[n].name| > room)
  }

  lemma {:induction false} FittingIsFront(rs: seq<AttrCodec.Attr>, room: nat)
    ensures FrontNames(rs, room, FittingNames(rs, room))
  {
    if rs != [] && AttrCodec.ValidName(rs[0].name) && 1 + |rs[0].name| <= room {
      FittingIsFront(rs[1..], room - 1 - |rs[0].name|);
      var rest := FittingNames(rs[1..], room - 1 - |rs[0].name|);
      assert FittingNames(rs, room)[1..] == rest;
      assert |rest| < |rs[1..]| ==> rs[1..][|rest|] == rs[|rest| + 1];
      forall i | 0 < i <= |rest| ensures FittingNames(rs, room)[i] == rs[i].name {
        assert rest[i - 1] == rs[1..][i - 1].name;
      }
    }
  }

  function ListXattrTx(s: State, h: nat, room: nat): Result<seq<Bytes>> {
    var x :- NodeAt(s, h, {READ}, EBADF);
    var blob :- ReadAttrs(s.fs, x);
    Ok(FittingNames(AttrCodec.Records(blob), room))
  }

  /** The visible entries of a directory, sorted by name; the attribute store is not one of them. */
  function Dirents(fs: Fs, d: Id): seq<Listing.Dirent>
    requires d in fs.nodes && fs.nodes[d].Dir?
  {
    var entries := fs.nodes[d].entries;
    var names := Listing.Sorted(entries.Keys - {STORE_DIR});
    seq(|names|, i requires 0 <= i < |names| =>
      Listing.Dirent(names[i],
                     names[i] in entries && entries[names[i]] in fs.nodes && fs.nodes[entries[names[i]]].Dir?))
  }

  function ReadDirTx(s: State, h: nat, cursor: nat, room: nat): Result<Bytes> {
    var d :- DirAt(s, h);
    if !Allows(d.rights, {ENUMERATE}) then Err(EPERM)
    else if d.node !in s.fs.nodes then Err(ENOENT)
    else if s.fs.nodes[d.node].File? then Err(EIO)
    else Ok(Listing.Page(Dirents(s.fs, d.node), cursor, room))
  }

  // --- close, and the whole service ---

  /** The slot is freed first; closing a file deregisters it from the engine's usage table. */
  function CloseStep(s: State, h: nat): (State, Reply) {
    if h == 0 then (s, Fail(EINVAL))
    else
      match EntryAt(s, h)
      case Err(e) => (s, Fail(e))
      case Ok(entry) =>
        var handles := s.handles[h := None];
        if entry.DirEntry? then (s.(handles := handles), Done)
        else
          match OnCloseNode(s.fs, entry.node)
          case Ok(fs) => (State(fs, handles), Done)
          case Err(e) => (s.(handles := handles), Fail(e))
  }

  function Mint(s: State, r: Result<(Fs, Entry)>): (State, Reply) {
    match r
    case Err(e) => (s, Fail(e))
    case Ok(minted) =>
      (State(minted.0, Installed(s.handles, minted.1)), Handle(FirstFree(s.handles)))
  }

  function Apply(s: State, r: Result<Fs>, reply: Reply): (State, Reply) {
    match r
    case Err(e) => (s, Fail(e))
    case Ok(fs) => (s.(fs := fs), reply)
  }

  function Answer<T>(s: State, r: Result<T>, reply: T -> Reply): (State, Reply) {
    match r
    case Err(e) => (s, Fail(e))
    case Ok(v) => (s, reply(v))
  }

  function Step(s: State, req: Request): (State, Reply) {
    match req
    case OpenFile(h, name) => Mint(s, OpenFileTx(s, h, name))
    case OpenDir(h, name, requested) => Mint(s, OpenDirTx(s, h, name, requested))
    case MakeDir(h, name, requested, hint) => Mint(s, MakeDirTx(s, h, name, requested, hint))
    case CreateFile(h, name, hint) => Mint(s, CreateFileTx(s, h, name, hint))
    case Write(h, offset, data) => Apply(s, WriteTx(s, h, offset, data), Wrote(|data|))
    case Truncate(h, size) => Apply(s, TruncateTx(s, h, size), Done)
    case Rename(h, name, dstH, dstName) => Apply(s, RenameTx(s, h, name, dstH, dstName), Done)
    case Unlink(h, name) => Apply(s, RemoveTx(s, h, name, false), Done)
    case Rmdir(h, name) => Apply(s, RemoveTx(s, h, name, true), Done)
    case SetXattr(h, a, dirHint, fileHint) => Apply(s, SetXattrTx(s, h, a, dirHint, fileHint), Done)
    case RemoveXattr(h, name) => Apply(s, RemoveXattrTx(s, h, name), Done)
    case Read(h, offset, len) => Answer(s, ReadTx(s, h, offset, len), bytes => Data(bytes))
    case GetXattr(h, name, room) =>
      Answer(s, GetXattrTx(s, h, name, room), (a: AttrCodec.Attr) => Value(a.kind, a.value))
    case ListXattr(h, room) => Answer(s, ListXattrTx(s, h, room), names => Names(names))
    case ReadDir(h, cursor, room) => Answer(s, ReadDirTx(s, h, cursor, room), bytes => Data(bytes))
    case Close(h) => CloseStep(s, h)
  }
}
