/**
 The file server as it runs: one object, the mounted filesystem and the open-handle table, and one
 method a verb, with the checks in the order the service makes them. Each method is proved to do what
 `Verbs.Step` says, so the run theorems are about this object. A transaction works on a copy of the
 engine state and is kept only if it succeeds, which is what `fs.tx` does.
 */
module FileServer {
  import opened Basics
  import opened Engine
  import opened Namespace
  import opened AttrStore
  import opened Store
  import opened Rights
  import opened Verbs
  import opened ServerInvariant
  import opened ServerSteps
  import opened ServerRuns
  import opened Refusals
  import opened Answers
  import AttrCodec
  import Listing

  function Minted(r: Result<nat>): Reply {
    match r
    case Ok(h) => Handle(h)
    case Err(e) => Fail(e)
  }

  function Plain(r: Result<()>): Reply {
    match r
    case Ok(_) => Done
    case Err(e) => Fail(e)
  }

  /** Name records, whole, from the front until one does not fit. */
  method FillNames(rs: seq<AttrCodec.Attr>, room: nat) returns (names: seq<Bytes>)
    ensures names == FittingNames(rs, room)
    ensures FrontNames(rs, room, names)
  {
    names := [];
    var used, i := 0, 0;
    assert rs[0..] == rs;
    while i < |rs| && AttrCodec.ValidName(rs[i].name) && used + 1 + |rs[i].name| <= room
      invariant i <= |rs| && used <= room
      invariant names + FittingNames(rs[i..], room - used) == FittingNames(rs, room)
    {
      assert rs[i..][0] == rs[i] && rs[i..][1..] == rs[i + 1..];
      names, used, i := names + [rs[i].name], used + 1 + |rs[i].name|, i + 1;
    }
    assert i < |rs| ==> rs[i..][0] == rs[i];
    assert FittingNames(rs[i..], room - used) == [];
    FittingIsFront(rs, room);
  }

  class Server {
    var fs: Fs
    var handles: seq<Option<Entry>>

    function Now(): State
      reads this
    {
      State(fs, handles)
    }

    ghost predicate Valid()
      reads this
    {
      Inv(Now())
    }

    /** Bind a mounted image: slot 0 is its root, with every right. */
    constructor Open(image: Fs)
      requires FsOk(image) && StoreOk(image.nodes) && image.usages == map[] && image.release == {}
      ensures fs == image && Initial(Now()) && Valid()
    {
      fs := image;
      handles := [Some(DirEntry(ROOT, ALL))];
      new;
      InitialOk(Now());
    }

    /** Reuse a freed slot before growing. */
    method Install(e: Entry) returns (h: nat)
      modifies this`handles
      ensures handles == Installed(old(handles), e) && h == FirstFree(old(handles))
      ensures old(EntryAt(Now(), 0).Ok?) ==> h != 0
      ensures EntryAt(Now(), h) == Ok(e)
    {
      h := 0;
      while h < |handles| && handles[h].Some?
        invariant h <= |handles| && forall j :: 0 <= j < h ==> handles[j].Some?
      {
        h := h + 1;
      }
      FirstFreeIs(handles, h);
      if h < |handles| {
        handles := handles[h := Some(e)];
      } else {
        handles := handles + [Some(e)];
      }
    }

    method OpenFileAt(h: nat, name: Bytes) returns (r: Result<nat>)
      modifies this
      ensures (Now(), Minted(r)) == Step(old(Now()), OpenFile(h, name))
      ensures old(Valid()) ==> OpensFile(old(Now()), h, name, Now(), Minted(r))
    {
      if Valid() {
        OpenFileMeans(Now(), h, name);
      }
      var _ :- CheckComponent(name);
      var d :- DirAt(Now(), h);
      if DeniesAll(d.rights, {READ, WRITE}) {
        return Err(ENOENT);
      }
      var x :- FindNode(fs, d.node, name);
      if fs.nodes[x].Dir? {
        return Err(EISDIR);
      }
      fs := OnOpenNode(fs, x);
      var minted := Install(FileEntry(x, Attenuate(d.rights, {READ, WRITE})));
      return Ok(minted);
    }

    method OpenDirAt(h: nat, name: Bytes, requested: Mask) returns (r: Result<nat>)
      modifies this`handles
      ensures (Now(), Minted(r)) == Step(old(Now()), OpenDir(h, name, requested))
      ensures old(Valid()) ==> OpensDir(old(Now()), h, name, requested, Now(), Minted(r))
    {
      if Valid() {
        OpenDirMeans(Now(), h, name, requested);
      }
      var _ :- CheckComponent(name);
      var d :- DirAt(Now(), h);
      if !Allows(d.rights, {DESCEND}) {
        return Err(ENOENT);
      }
      var x :- FindNode(fs, d.node, name);
      if fs.nodes[x].File? {
        return Err(ENOTDIR);
      }
      var granted := Attenuate(d.rights, requested);
      if granted != Root(requested) {
        return Err(EPERM);
      }
      var minted := Install(DirEntry(x, granted));
      return Ok(minted);
    }

    method MakeDirAt(h: nat, name: Bytes, requested: Mask, hint: Id) returns (r: Result<nat>)
      modifies this
      ensures (Now(), Minted(r)) == Step(old(Now()), MakeDir(h, name, requested, hint))
      ensures old(Valid()) ==> MakesDir(old(Now()), h, name, requested, hint, Now(), Minted(r))
    {
      if Valid() {
        MakeDirMeans(Now(), h, name, requested, hint);
      }
      var _ :- CheckComponent(name);
      var d :- DirAt(Now(), h);
      if !Allows(d.rights, {CREATE}) {
        return Err(EROFS);
      }
      if !Allows(d.rights, {DESCEND}) {
        return Err(EPERM);
      }
      var granted := Attenuate(d.rights, requested);
      if granted != Root(requested) {
        return Err(EPERM);
      }
      if FindNode(fs, d.node, name).Ok? {
        return Err(EEXIST);
      }
      var made :- CreateNode(fs, d.node, name, true, hint);
      fs := made.0;
      var minted := Install(DirEntry(made.1, granted));
      return Ok(minted);
    }

    method CreateFileAt(h: nat, name: Bytes, hint: Id) returns (r: Result<nat>)
      modifies this
      ensures (Now(), Minted(r)) == Step(old(Now()), CreateFile(h, name, hint))
      ensures old(Valid()) ==> CreatesFile(old(Now()), h, name, hint, Now(), Minted(r))
    {
      if Valid() {
        CreateFileMeans(Now(), h, name, hint);
      }
      var _ :- CheckComponent(name);
      var d :- DirAt(Now(), h);
      if !Allows(d.rights, {CREATE}) {
        return Err(EROFS);
      }
      if FindNode(fs, d.node, name).Ok? {
        return Err(EEXIST);
      }
      var made :- CreateNode(fs, d.node, name, false, hint);
      fs := OnOpenNode(made.0, made.1);
      var minted := Install(FileEntry(made.1, Attenuate(d.rights, {READ, WRITE})));
      return Ok(minted);
    }

    method ReadAt(h: nat, offset: nat, len: nat) returns (r: Result<Bytes>)
      ensures r == ReadTx(Now(), h, offset, len)
      ensures r.Ok? ==> |r.value| <= len
      ensures Valid() ==> ReadsFile(Now(), h, offset, len, r)
    {
      if Valid() {
        ReadMeans(Now(), h, offset, len);
      }
      var x :- FileAt(Now(), h, {READ}, EBADF);
      return ReadNode(fs, x, offset, len);
    }

    method WriteAt(h: nat, offset: nat, data: Bytes) returns (r: Result<nat>)
      modifies this`fs
      ensures r.Ok? ==> r.value == |data|
      ensures (Now(), if r.Ok? then Wrote(r.value) else Fail(r.errno)) == Step(old(Now()), Write(h, offset, data))
      ensures old(Valid()) ==> WritesFile(old(Now()), h, offset, data, Now(), if r.Ok? then Wrote(r.value) else Fail(r.errno))
    {
      if Valid() {
        WriteMeans(Now(), h, offset, data);
      }
      var x :- FileAt(Now(), h, {WRITE}, EROFS);
      var written :- WriteNode(fs, x, offset, data);
      fs := written;
      return Ok(|data|);
    }

    method TruncateAt(h: nat, size: nat) returns (r: Result<()>)
      modifies this`fs
      ensures (Now(), Plain(r)) == Step(old(Now()), Truncate(h, size))
      ensures old(Valid()) ==> TruncatesFile(old(Now()), h, size, Now(), Plain(r))
    {
      if Valid() {
        TruncateMeans(Now(), h, size);
      }
      var x :- FileAt(Now(), h, {WRITE}, EROFS);
      var cut :- TruncateNode(fs, x, size);
      fs := cut;
      return Ok(());
    }

    method RenameAt(srcH: nat, src: Bytes, dstH: nat, dst: Bytes) returns (r: Result<()>)
      modifies this`fs
      ensures (Now(), Plain(r)) == Step(old(Now()), Rename(srcH, src, dstH, dst))
      ensures old(Valid()) ==> Renames(old(Now()), srcH, src, dstH, dst, Now(), Plain(r))
    {
      if Valid() {
        RenameMeans(Now(), srcH, src, dstH, dst);
      }
      var _ :- CheckComponent(src);
      var _ :- CheckComponent(dst);
      var from :- DirAt(Now(), srcH);
      var to :- DirAt(Now(), dstH);
      if !Allows(from.rights, {REMOVE}) || !Allows(to.rights, {CREATE}) {
        return Err(EROFS);
      }
      var x :- FindNode(fs, from.node, src);
      var isDir := fs.nodes[x].Dir?;
      if isDir && from.node != to.node {
        return Err(EINVAL);
      }
      var replaced: Option<Id> := None;
      var existing := FindNode(fs, to.node, dst);
      if existing.Ok? {
        if existing.value == x {
          return Ok(());
        }
        if fs.nodes[existing.value].Dir? != isDir {
          return Err(if fs.nodes[existing.value].Dir? then EISDIR else ENOTDIR);
        }
        if fs.nodes[existing.value].links == 1 {
          replaced := Some(existing.value);
        }
      }
      var tx :- RenameNode(fs, from.node, src, to.node, dst);
      if replaced.Some? {
        tx :- PurgeAttrs(tx, replaced.value);
      }
      fs := tx;
      return Ok(());
    }

    /** `unlink` and `rmdir` differ in the kind they ask the engine to remove. */
    method RemoveAt(h: nat, name: Bytes, wantDir: bool) returns (r: Result<()>)
      modifies this`fs
      ensures (Now(), Plain(r)) == Step(old(Now()), if wantDir then Rmdir(h, name) else Unlink(h, name))
      ensures old(Valid()) ==> Removes(old(Now()), h, name, wantDir, Now(), Plain(r))
    {
      if Valid() {
        RemoveMeans(Now(), h, name, wantDir);
      }
      var _ :- CheckComponent(name);
      var d :- DirAt(Now(), h);
      if !Allows(d.rights, {REMOVE}) {
        return Err(EROFS);
      }
      var removed :- RemoveNode(fs, d.node, name, wantDir);
      var (tx, gone) := removed;
      if gone.Some? {
        tx :- PurgeAttrs(tx, gone.value);
      }
      fs := tx;
      return Ok(());
    }

    method ReadDirAt(h: nat, cursor: nat, room: nat) returns (r: Result<Bytes>)
      ensures r == ReadDirTx(Now(), h, cursor, room)
      ensures r.Ok? ==> |r.value| <= room
      ensures Valid() ==> ReadsDir(Now(), h, cursor, room, r)
    {
      if Valid() {
        ReadDirMeans(Now(), h, cursor, room);
      }
      var d :- DirAt(Now(), h);
      if !Allows(d.rights, {ENUMERATE}) {
        return Err(EPERM);
      }
      if d.node !in fs.nodes {
        return Err(ENOENT);
      }
      if fs.nodes[d.node].File? {
        return Err(EIO);
      }
      var page := Listing.FillPage(Dirents(fs, d.node), cursor, room);
      return Ok(page);
    }

    method GetAttr(h: nat, name: Bytes, room: nat) returns (r: Result<AttrCodec.Attr>)
      ensures r == GetXattrTx(Now(), h, name, room)
      ensures r.Ok? ==> r.value.name == name && |r.value.value| <= room
      ensures Valid() ==> GetsAttr(Now(), h, name, room, r)
    {
      if Valid() {
        GetMeans(Now(), h, name, room);
      }
      if !AttrCodec.ValidName(name) {
        return Err(ERANGE);
      }
      var x :- NodeAt(Now(), h, {READ}, EBADF);
      var blob :- ReadAttrs(fs, x);
      var found := AttrCodec.Lookup(AttrCodec.Records(blob), name);
      if found.None? {
        return Err(ENODATA);
      }
      ghost var k := AttrCodec.LookupIndex(AttrCodec.Records(blob), name);
      if room < |found.value.value| {
        return Err(ERANGE);
      }
      return Ok(found.value);
    }

    method SetAttr(h: nat, a: AttrCodec.Attr, dirHint: Id, fileHint: Id) returns (r: Result<()>)
      requires Valid()
      modifies this`fs
      ensures (Now(), Plain(r)) == Step(old(Now()), SetXattr(h, a, dirHint, fileHint))
      ensures SetsAttr(old(Now()), h, a, dirHint, fileHint, Now(), Plain(r))
    {
      SetMeans(Now(), h, a, dirHint, fileHint);
      if !AttrCodec.ValidName(a.name) {
        return Err(ERANGE);
      }
      if |a.value| > AttrCodec.MAX_VALUE {
        return Err(E2BIG);
      }
      var x :- NodeAt(Now(), h, {WRITE}, EROFS);
      var blob :- ReadAttrs(fs, x);
      BlobIsGood(Now(), x);
      var room := |blob| + AttrCodec.RecordLen(|a.name|, |a.value|);
      var rewritten :- AttrCodec.StoreSet(blob, a, room);
      var tx :- WriteAttrs(fs, x, rewritten, dirHint, fileHint);
      fs := tx;
      return Ok(());
    }

    method ListAttr(h: nat, room: nat) returns (r: Result<seq<Bytes>>)
      ensures r == ListXattrTx(Now(), h, room)
      ensures Valid() ==> ListsAttrs(Now(), h, room, r)
    {
      if Valid() {
        ListMeans(Now(), h, room);
      }
      var x :- NodeAt(Now(), h, {READ}, EBADF);
      var blob :- ReadAttrs(fs, x);
      var names := FillNames(AttrCodec.Records(blob), room);
      return Ok(names);
    }

    method RemoveAttr(h: nat, name: Bytes) returns (r: Result<()>)
      modifies this`fs
      ensures (Now(), Plain(r)) == Step(old(Now()), RemoveXattr(h, name))
      ensures old(Valid()) ==> RemovesAttr(old(Now()), h, name, Now(), Plain(r))
    {
      if Valid() {
        RemoveAttrMeans(Now(), h, name);
      }
      if !AttrCodec.ValidName(name) {
        return Err(ERANGE);
      }
      var x :- NodeAt(Now(), h, {WRITE}, EROFS);
      var blob :- ReadAttrs(fs, x);
      var rewritten :- AttrCodec.StoreRemove(blob, name);
      var tx :- WriteAttrs(fs, x, rewritten, 0, 0);
      fs := tx;
      return Ok(());
    }

    method CloseAt(h: nat) returns (r: Result<()>)
      modifies this
      ensures (Now(), Plain(r)) == Step(old(Now()), Close(h))
      ensures old(Valid()) ==> Closes(old(Now()), h, Now(), Plain(r))
    {
      if Valid() {
        CloseMeans(Now(), h);
      }
      if h == 0 {
        return Err(EINVAL);
      }
      var e :- EntryAt(Now(), h);
      handles := handles[h := None];
      if e.FileEntry? {
        var closed :- OnCloseNode(fs, e.node);
        fs := closed;
      }
      return Ok(());
    }

    /** One request, run to completion before the next is received. */
    method Serve(req: Request) returns (reply: Reply)
      requires Valid()
      modifies this
      ensures (Now(), reply) == Step(old(Now()), req)
      ensures AsRefused(Refusal(old(Now()), req), reply)
      ensures Valid() <==> Permitted(old(Now()), req)
    {
      ghost var was := Now();
      match req {
        case OpenFile(h, name) =>
          var r := OpenFileAt(h, name);
          reply := Minted(r);
        case OpenDir(h, name, requested) =>
          var r := OpenDirAt(h, name, requested);
          reply := Minted(r);
        case MakeDir(h, name, requested, hint) =>
          var r := MakeDirAt(h, name, requested, hint);
          reply := Minted(r);
        case CreateFile(h, name, hint) =>
          var r := CreateFileAt(h, name, hint);
          reply := Minted(r);
        case Read(h, offset, len) =>
          var r := ReadAt(h, offset, len);
          reply := if r.Ok? then Data(r.value) else Fail(r.errno);
        case Write(h, offset, data) =>
          var r := WriteAt(h, offset, data);
          reply := if r.Ok? then Wrote(r.value) else Fail(r.errno);
        case Truncate(h, size) =>
          var r := TruncateAt(h, size);
          reply := Plain(r);
        case Rename(h, name, dstH, dstName) =>
          var r := RenameAt(h, name, dstH, dstName);
          reply := Plain(r);
        case Unlink(h, name) =>
          var r := RemoveAt(h, name, false);
          reply := Plain(r);
        case Rmdir(h, name) =>
          var r := RemoveAt(h, name, true);
          reply := Plain(r);
        case ReadDir(h, cursor, room) =>
          var r := ReadDirAt(h, cursor, room);
          reply := if r.Ok? then Data(r.value) else Fail(r.errno);
        case GetXattr(h, name, room) =>
          var r := GetAttr(h, name, room);
          reply := if r.Ok? then Value(r.value.kind, r.value.value) else Fail(r.errno);
        case SetXattr(h, a, dirHint, fileHint) =>
          var r := SetAttr(h, a, dirHint, fileHint);
          reply := Plain(r);
        case ListXattr(h, room) =>
          var r := ListAttr(h, room);
          reply := if r.Ok? then Names(r.value) else Fail(r.errno);
        case RemoveXattr(h, name) =>
          var r := RemoveAttr(h, name);
          reply := Plain(r);
        case Close(h) =>
          var r := CloseAt(h);
          reply := Plain(r);
      }
      RefusedAs(was, req);
      StepKeepsInvIff(was, req);
    }
  }

  lemma {:induction false} FirstFreeIs(handles: seq<Option<Entry>>, h: nat)
    requires h <= |handles| && (forall j :: 0 <= j < h ==> handles[j].Some?) && (h < |handles| ==> handles[h].None?)
    ensures FirstFree(handles) == h
  {
    if h > 0 {
      FirstFreeIs(handles[1..], h - 1);
    }
  }
}
