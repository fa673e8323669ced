/**
 Every request, one lemma a verb: what it keeps, what it may touch and whose attributes it changes.
 Together they say that a step keeps the server's invariant exactly when it removes no directory that
 a live handle names.
 */
module ServerSteps {
  import opened Basics
  import opened Engine
  import opened Namespace
  import opened AttrStore
  import opened Store
  import opened Visible
  import opened Rights
  import opened Verbs
  import opened ServerInvariant
  import AttrCodec

  // --- verbs that mint ---

  lemma {:induction false} OpenFileKeeps(s: State, h: nat, name: Bytes)
    requires Inv(s) && OpenFileTx(s, h, name).Ok?
    ensures Stepped(s, Mint(s, OpenFileTx(s, h, name)).0, {}, {})
  {
    var d := DirAt(s, h).value;
    assert EntryOk(s.fs.nodes, d);
    var (fs', e) := OpenFileTx(s, h, name).value;
    FoundIsVisible(s.fs.nodes, d.node, name, e.node);
    OpenKeepsOk(s.fs, e.node);
    SameIsChange(s.fs.nodes);
    MintKeeps(s, fs', e, {});
  }

  lemma {:induction false} OpenDirKeeps(s: State, h: nat, name: Bytes, requested: Mask)
    requires Inv(s) && OpenDirTx(s, h, name, requested).Ok?
    ensures Stepped(s, Mint(s, OpenDirTx(s, h, name, requested)).0, {}, {})
  {
    var d := DirAt(s, h).value;
    assert EntryOk(s.fs.nodes, d);
    var (fs', e) := OpenDirTx(s, h, name, requested).value;
    FoundIsVisible(s.fs.nodes, d.node, name, e.node);
    SameIsChange(s.fs.nodes);
    MintKeeps(s, fs', e, {});
  }

  /** A creation, and the entry the new node is minted with. */
  lemma {:induction false} CreateKeeps(s: State, fs1: Fs, d: Id, name: Bytes, isDir: bool, hint: Id, e: Entry)
    requires Inv(s) && IsDir(s.fs.nodes, d) && !Hidden(s.fs.nodes, d) && name != STORE_DIR
    requires CreateNode(s.fs, d, name, isDir, hint) == Ok((fs1, hint)) && e.node == hint
    requires if isDir then e.DirEntry? && e.rights <= ALL else e.FileEntry? && e.rights <= {READ, WRITE}
    ensures Stepped(s, State(if isDir then fs1 else OnOpenNode(fs1, hint), Installed(s.handles, e)), {d}, {})
  {
    CreateKeepsOk(s.fs, d, name, isDir, hint);
    CreateVisible(s.fs, d, name, isDir, hint);
    if isDir {
      MintKeeps(s, fs1, e, {d});
    } else {
      OpenKeepsOk(fs1, hint);
      MintKeeps(s, OnOpenNode(fs1, hint), e, {d});
    }
  }

  lemma {:induction false} MakeDirKeeps(s: State, h: nat, name: Bytes, requested: Mask, hint: Id)
    requires Inv(s) && MakeDirTx(s, h, name, requested, hint).Ok?
    ensures Stepped(s, Mint(s, MakeDirTx(s, h, name, requested, hint)).0, {DirAt(s, h).value.node}, {})
  {
    var d := DirAt(s, h).value;
    assert EntryOk(s.fs.nodes, d);
    var (fs', e) := MakeDirTx(s, h, name, requested, hint).value;
    CreateKeeps(s, fs', d.node, name, true, hint, e);
  }

  lemma {:induction false} CreateFileKeeps(s: State, h: nat, name: Bytes, hint: Id)
    requires Inv(s) && CreateFileTx(s, h, name, hint).Ok?
    ensures Stepped(s, Mint(s, CreateFileTx(s, h, name, hint)).0, {DirAt(s, h).value.node}, {})
  {
    var d := DirAt(s, h).value;
    assert EntryOk(s.fs.nodes, d);
    var (fs', e) := CreateFileTx(s, h, name, hint).value;
    CreateKeeps(s, CreateNode(s.fs, d.node, name, false, hint).value.0, d.node, name, false, hint, e);
  }

  // --- data ---

  lemma {:induction false} DataKeeps(s: State, x: Id, data: Bytes)
    requires Inv(s) && IsFile(s.fs.nodes, x) && !Hidden(s.fs.nodes, x)
    ensures Stepped(s, s.(fs := s.fs.(nodes := s.fs.nodes[x := s.fs.nodes[x].(data := data)])), {x}, {})
  {
    DataKeepsOk(s.fs, x, data);
    DataVisible(s.fs.nodes, x, data);
    assert NoneHeld(s, {});
    EditKeeps(s, s.fs.(nodes := s.fs.nodes[x := s.fs.nodes[x].(data := data)]), {x}, {});
  }

  lemma {:induction false} WriteKeeps(s: State, h: nat, offset: nat, data: Bytes)
    requires Inv(s) && WriteTx(s, h, offset, data).Ok?
    ensures Stepped(s, s.(fs := WriteTx(s, h, offset, data).value), {EntryAt(s, h).value.node}, {})
  {
    var x := EntryAt(s, h).value.node;
    assert EntryOk(s.fs.nodes, EntryAt(s, h).value);
    DataKeeps(s, x, Overlaid(s.fs.nodes[x].data, offset, data));
  }

  lemma {:induction false} TruncateKeeps(s: State, h: nat, size: nat)
    requires Inv(s) && TruncateTx(s, h, size).Ok?
    ensures Stepped(s, s.(fs := TruncateTx(s, h, size).value), {EntryAt(s, h).value.node}, {})
  {
    var x := EntryAt(s, h).value.node;
    assert EntryOk(s.fs.nodes, EntryAt(s, h).value);
    DataKeeps(s, x, Resized(s.fs.nodes[x].data, size));
  }

  // --- attributes ---

  /** The attributes of node `x`, as the list its blob encodes. */
  function AttrsOf(nodes: map<Id, Node>, x: Id): seq<AttrCodec.Attr> {
    AttrCodec.Records(Blob(nodes, x))
  }

  lemma {:induction false} GoodEncodes(rs: seq<AttrCodec.Attr>)
    requires AttrCodec.GoodList(rs) && rs != []
    ensures GoodBlob(AttrCodec.Encode(rs)) && AttrCodec.Records(AttrCodec.Encode(rs)) == rs
  {
    AttrCodec.RoundTrip(rs);
    AttrCodec.EncodedLength(rs);
  }

  lemma {:induction false} BlobIsGood(s: State, x: Id)
    requires Inv(s)
    ensures ReadAttrs(s.fs, x) == Ok(Blob(s.fs.nodes, x))
    ensures AttrCodec.GoodList(AttrsOf(s.fs.nodes, x))
    ensures Blob(s.fs.nodes, x) == [] <==> AttrsOf(s.fs.nodes, x) == []
  {
    ReadAttrsIsBlob(s.fs, x);
  }

  /** Writing back what is left of a list, or removing the blob when nothing is. */
  lemma {:induction false} WriteLeft(s: State, x: Id, left: seq<AttrCodec.Attr>, dirHint: Id, fileHint: Id)
    requires Inv(s) && x in s.fs.nodes && AttrCodec.GoodList(left)
    requires WriteAttrs(s.fs, x, AttrCodec.Encode(left), dirHint, fileHint).Ok?
    ensures var fs' := WriteAttrs(s.fs, x, AttrCodec.Encode(left), dirHint, fileHint).value;
            Stepped(s, s.(fs := fs'), {}, {x}) && AttrsOf(fs'.nodes, x) == left && fs'.release == s.fs.release
  {
    if left == [] {
      UsedIsVisible(s);
      PurgeEffect(s.fs, x);
    } else {
      GoodEncodes(left);
      WriteEffect(s.fs, x, AttrCodec.Encode(left), dirHint, fileHint);
    }
    StoreEditKeeps(s, WriteAttrs(s.fs, x, AttrCodec.Encode(left), dirHint, fileHint).value, x);
  }

  lemma {:induction false} SetKeeps(s: State, h: nat, a: AttrCodec.Attr, dirHint: Id, fileHint: Id)
    requires Inv(s) && SetXattrTx(s, h, a, dirHint, fileHint).Ok?
    ensures EntryAt(s, h).Ok?
    ensures var x, fs' := EntryAt(s, h).value.node, SetXattrTx(s, h, a, dirHint, fileHint).value;
            && Stepped(s, s.(fs := fs'), {}, {x})
            && AttrsOf(fs'.nodes, x) == AttrCodec.Put(AttrsOf(s.fs.nodes, x), a)
            && fs'.release == s.fs.release
  {
    var x := EntryAt(s, h).value.node;
    assert EntryOk(s.fs.nodes, EntryAt(s, h).value);
    BlobIsGood(s, x);
    AttrCodec.PutKeepsGood(AttrsOf(s.fs.nodes, x), a);
    WriteLeft(s, x, AttrCodec.Put(AttrsOf(s.fs.nodes, x), a), dirHint, fileHint);
  }

  lemma {:induction false} RemoveAttrKeeps(s: State, h: nat, name: Bytes)
    requires Inv(s) && RemoveXattrTx(s, h, name).Ok?
    ensures EntryAt(s, h).Ok?
    ensures var x, fs' := EntryAt(s, h).value.node, RemoveXattrTx(s, h, name).value;
            && Stepped(s, s.(fs := fs'), {}, {x})
            && AttrsOf(fs'.nodes, x) == AttrCodec.Without(AttrsOf(s.fs.nodes, x), name)
            && fs'.release == s.fs.release
  {
    var x := EntryAt(s, h).value.node;
    assert EntryOk(s.fs.nodes, EntryAt(s, h).value);
    BlobIsGood(s, x);
    AttrCodec.WithoutKeepsGood(AttrsOf(s.fs.nodes, x), name);
    WriteLeft(s, x, AttrCodec.Without(AttrsOf(s.fs.nodes, x), name), 0, 0);
  }

  // --- close ---

  lemma {:induction false} CloseKeeps(s: State, h: nat)
    requires Inv(s)
    ensures Stepped(s, CloseStep(s, h).0, {}, {})
  {
    if h == 0 || EntryAt(s, h).Err? {
      Unchanged(s, {}, {});
    } else if EntryAt(s, h).value.DirEntry? {
      forall x ensures OpenCount(s.handles[h := None], x) == OpenCount(s.handles, x) {
        CountUpdated(s.handles, h, None, x);
      }
      EffectRefl(s.fs.nodes, {}, {});
    } else {
      CloseFileKeeps(s, h);
    }
  }

  lemma {:induction false} CloseFileKeeps(s: State, h: nat)
    requires Inv(s) && 0 < h && EntryAt(s, h).Ok? && EntryAt(s, h).value.FileEntry?
    ensures Stepped(s, CloseStep(s, h).0, {}, {})
  {
    var x := s.handles[h].value.node;
    CloseCounts(s, h);
    var s' := State(OnCloseNode(s.fs, x).value, s.handles[h := None]);
    assert EntryOk(s.fs.nodes, s.handles[h].value);
    CloseForm(s.fs, x);
    CloseKeepsOk(s.fs, x);
    if x in s.fs.release && s.fs.usages[x] == 1 {
      ReapVisible(s.fs.nodes, x);
      NotHeldAfterLastClose(s, h);
      ReapKeeps(s, s', h, x);
    } else {
      EffectRefl(s.fs.nodes, {}, {});
    }
  }

  /** Closing a file handle takes one from the count of its node and of no other. */
  lemma {:induction false} CloseCounts(s: State, h: nat)
    requires Inv(s) && EntryAt(s, h).Ok? && EntryAt(s, h).value.FileEntry?
    ensures s.handles[h].value.node in s.fs.usages
    ensures OnCloseNode(s.fs, s.handles[h].value.node).Ok?
    ensures CountsOk(State(OnCloseNode(s.fs, s.handles[h].value.node).value, s.handles[h := None]))
  {
    var x := s.handles[h].value.node;
    CountPositive(s.handles, x);
    assert Usage(s.fs, x) > 0;
    var fs' := OnCloseNode(s.fs, x).value;
    forall y ensures Usage(fs', y) == OpenCount(s.handles[h := None], y) {
      CountUpdated(s.handles, h, None, y);
    }
  }

  lemma {:induction false} NotHeldAfterLastClose(s: State, h: nat)
    requires Inv(s) && EntryAt(s, h).Ok? && EntryAt(s, h).value.FileEntry?
    requires Usage(s.fs, s.handles[h].value.node) == 1
    ensures forall g :: 0 <= g < |s.handles| && g != h && s.handles[g].Some? ==>
              s.handles[g].value.node != s.handles[h].value.node
  {
    var x := s.handles[h].value.node;
    CountUpdated(s.handles, h, None, x);
    CountPositive(s.handles[h := None], x);
    assert EntryOk(s.fs.nodes, s.handles[h].value);
    forall g | 0 <= g < |s.handles| && g != h && s.handles[g].Some? ensures s.handles[g].value.node != x {
      assert EntryOk(s.fs.nodes, s.handles[g].value) && s.handles[h := None][g] == s.handles[g];
    }
  }

  lemma {:induction false} ReapKeeps(s: State, s': State, h: nat, x: Id)
    requires Inv(s) && 0 < h < |s.handles| && s'.handles == s.handles[h := None]
    requires VisibleChange(s.fs.nodes, s'.fs.nodes, {}, {x}, {}) && FsOk(s'.fs) && CountsOk(s')
    requires forall g :: 0 <= g < |s.handles| && g != h && s.handles[g].Some? ==> s.handles[g].value.node != x
    ensures Stepped(s, s', {}, {})
  {
    ChangeIsEffect(s.fs.nodes, s'.fs.nodes, {}, {x}, {});
    SameStoreKeeps(s.fs.nodes, s'.fs.nodes);
    forall g | 0 <= g < |s'.handles| && s'.handles[g].Some? ensures EntryOk(s'.fs.nodes, s'.handles[g].value) {
      assert EntryOk(s.fs.nodes, s.handles[g].value);
    }
  }

  // --- every request ---

  function NodeOf(s: State, h: nat): set<Id> {
    if EntryAt(s, h).Ok? then {EntryAt(s, h).value.node} else {}
  }

  /** The nodes a request may change in the visible tree: those its handles name. */
  function Touched(s: State, req: Request): set<Id> {
    match req
    case MakeDir(h, _, _, _) => NodeOf(s, h)
    case CreateFile(h, _, _) => NodeOf(s, h)
    case Unlink(h, _) => NodeOf(s, h)
    case Rmdir(h, _) => NodeOf(s, h)
    case Write(h, _, _) => NodeOf(s, h)
    case Truncate(h, _) => NodeOf(s, h)
    case Rename(h, _, dstH, _) => NodeOf(s, h) + NodeOf(s, dstH)
    case _ => {}
  }

  /** The node found under a name in the directory a handle names. */
  function FoundAt(s: State, h: nat, name: Bytes): set<Id> {
    if DirAt(s, h).Ok? && FindNode(s.fs, DirAt(s, h).value.node, name).Ok?
    then {FindNode(s.fs, DirAt(s, h).value.node, name).value} else {}
  }

  /** The nodes whose attributes a request may change. */
  function Tagged(s: State, req: Request): set<Id> {
    match req
    case SetXattr(h, _, _, _) => NodeOf(s, h)
    case RemoveXattr(h, _) => NodeOf(s, h)
    case Unlink(h, name) => FoundAt(s, h, name)
    case Rmdir(h, name) => FoundAt(s, h, name)
    case Rename(h, name, dstH, dstName) => FoundAt(s, dstH, dstName) - FoundAt(s, h, name)
    case _ => {}
  }

  lemma {:induction false} OpenStep(s: State, req: Request)
    requires Inv(s) && (req.OpenFile? || req.OpenDir?)
    ensures Stepped(s, Step(s, req).0, Touched(s, req), Tagged(s, req))
  {
    if Step(s, req).1.Fail? {
      Unchanged(s, Touched(s, req), Tagged(s, req));
    } else {
      match req
      case OpenFile(h, name) => OpenFileKeeps(s, h, name);
      case OpenDir(h, name, requested) => OpenDirKeeps(s, h, name, requested);
    }
  }

  lemma {:induction false} MakeDirStep(s: State, h: nat, name: Bytes, requested: Mask, hint: Id)
    requires Inv(s)
    ensures Stepped(s, Mint(s, MakeDirTx(s, h, name, requested, hint)).0, NodeOf(s, h), {})
  {
    if MakeDirTx(s, h, name, requested, hint).Ok? {
      MakeDirKeeps(s, h, name, requested, hint);
    } else {
      Unchanged(s, NodeOf(s, h), {});
    }
  }

  lemma {:induction false} CreateFileStep(s: State, h: nat, name: Bytes, hint: Id)
    requires Inv(s)
    ensures Stepped(s, Mint(s, CreateFileTx(s, h, name, hint)).0, NodeOf(s, h), {})
  {
    if CreateFileTx(s, h, name, hint).Ok? {
      CreateFileKeeps(s, h, name, hint);
    } else {
      Unchanged(s, NodeOf(s, h), {});
    }
  }

  lemma {:induction false} CreateStep(s: State, req: Request)
    requires Inv(s) && (req.MakeDir? || req.CreateFile?)
    ensures Stepped(s, Step(s, req).0, Touched(s, req), Tagged(s, req))
  {
    match req
    case MakeDir(h, name, requested, hint) => MakeDirStep(s, h, name, requested, hint);
    case CreateFile(h, name, hint) => CreateFileStep(s, h, name, hint);
  }

  lemma {:induction false} DataStep(s: State, req: Request)
    requires Inv(s) && (req.Write? || req.Truncate?)
    ensures Stepped(s, Step(s, req).0, Touched(s, req), Tagged(s, req))
  {
    if Step(s, req).1.Fail? {
      Unchanged(s, Touched(s, req), Tagged(s, req));
    } else {
      match req
      case Write(h, offset, data) => WriteKeeps(s, h, offset, data);
      case Truncate(h, size) => TruncateKeeps(s, h, size);
    }
  }

  lemma {:induction false} AttrStep(s: State, req: Request)
    requires Inv(s) && (req.SetXattr? || req.RemoveXattr?)
    ensures Stepped(s, Step(s, req).0, Touched(s, req), Tagged(s, req))
  {
    if Step(s, req).1.Fail? {
      Unchanged(s, Touched(s, req), Tagged(s, req));
    } else {
      match req
      case SetXattr(h, a, dirHint, fileHint) => SetKeeps(s, h, a, dirHint, fileHint);
      case RemoveXattr(h, name) => RemoveAttrKeeps(s, h, name);
    }
  }

  lemma {:induction false} RenameStep(s: State, req: Request)
    requires Inv(s) && req.Rename? && Permitted(s, req)
    ensures Stepped(s, Step(s, req).0, Touched(s, req), Tagged(s, req))
  {
    var Rename(h, name, dstH, dstName) := req;
    if RenameTx(s, h, name, dstH, dstName).Err? {
      Unchanged(s, Touched(s, req), Tagged(s, req));
    } else {
      RenameKeeps(s, h, name, dstH, dstName);
      RenameSets(s, h, name, dstH, dstName);
    }
  }

  lemma {:induction false} RenameSets(s: State, h: nat, name: Bytes, dstH: nat, dstName: Bytes)
    requires Inv(s) && RenameTx(s, h, name, dstH, dstName).Ok?
    ensures DirAt(s, h).Ok? && DirAt(s, dstH).Ok?
    ensures var sp, dp := DirAt(s, h).value.node, DirAt(s, dstH).value.node;
            var found := FindNode(s.fs, dp, dstName);
            && Touched(s, Rename(h, name, dstH, dstName)) == {sp, dp}
            && Tagged(s, Rename(h, name, dstH, dstName)) ==
               if found.Ok? && found != FindNode(s.fs, sp, name) then {found.value} else {}
  {
  }

  lemma {:induction false} RemoveStep(s: State, req: Request)
    requires Inv(s) && (req.Unlink? || req.Rmdir?) && Permitted(s, req)
    ensures Stepped(s, Step(s, req).0, Touched(s, req), Tagged(s, req))
  {
    if RemoveTx(s, req.h, req.name, req.Rmdir?).Err? {
      Unchanged(s, Touched(s, req), Tagged(s, req));
    } else {
      RemoveKeeps(s, req.h, req.name, req.Rmdir?);
    }
  }

  /** One request, whatever it is: the invariant, the frame of what it may touch, and whose attributes it may change. */
  lemma {:induction false} StepEffect(s: State, req: Request)
    requires Inv(s) && Permitted(s, req)
    ensures Stepped(s, Step(s, req).0, Touched(s, req), Tagged(s, req))
  {
    match req
    case OpenFile(_, _) => OpenStep(s, req);
    case OpenDir(_, _, _) => OpenStep(s, req);
    case MakeDir(_, _, _, _) => CreateStep(s, req);
    case CreateFile(_, _, _) => CreateStep(s, req);
    case Write(_, _, _) => DataStep(s, req);
    case Truncate(_, _) => DataStep(s, req);
    case SetXattr(_, _, _, _) => AttrStep(s, req);
    case RemoveXattr(_, _) => AttrStep(s, req);
    case Rename(_, _, _, _) => RenameStep(s, req);
    case Unlink(_, _) => RemoveStep(s, req);
    case Rmdir(_, _) => RemoveStep(s, req);
    case Close(h) => CloseKeeps(s, h);
    case _ => Unchanged(s, {}, {});
  }

  // --- and only such requests ---

  lemma {:induction false} PurgeShrinks(fs: Fs, id: Id)
    requires PurgeAttrs(fs, id).Ok?
    ensures PurgeAttrs(fs, id).value.nodes.Keys <= fs.nodes.Keys
  {
  }

  lemma {:induction false} RmdirGoes(s: State, h: nat, name: Bytes)
    requires Inv(s) && RemovedDir(s, Rmdir(h, name)).Some?
    ensures RemoveTx(s, h, name, true).Ok?
    ensures RemovedDir(s, Rmdir(h, name)).value !in RemoveTx(s, h, name, true).value.nodes
  {
    RemoveSplit(s, h, name, true);
    var d := DirAt(s, h).value.node;
    RemoveForm(s.fs, d, name, true);
    PurgeShrinks(RemoveNode(s.fs, d, name, true).value.0, RemovedDir(s, Rmdir(h, name)).value);
  }

  lemma {:induction false} ReplacedDirGoes(s: State, h: nat, name: Bytes, dstH: nat, dstName: Bytes)
    requires Inv(s) && RemovedDir(s, Rename(h, name, dstH, dstName)).Some?
    ensures RenameTx(s, h, name, dstH, dstName).Ok?
    ensures RemovedDir(s, Rename(h, name, dstH, dstName)).value !in RenameTx(s, h, name, dstH, dstName).value.nodes
  {
    var x := RemovedDir(s, Rename(h, name, dstH, dstName)).value;
    RenameSplit(s, h, name, dstH, dstName);
    var sp, dp := DirAt(s, h).value.node, DirAt(s, dstH).value.node;
    RenameForm(s.fs, sp, name, dp, dstName);
    assert x !in Cleared(s.fs, dp, dstName).nodes;
    PurgeShrinks(RenameNode(s.fs, sp, name, dp, dstName).value, x);
  }

  /** The directory a request removes is gone afterwards. */
  lemma {:induction false} RemovedDirGoes(s: State, req: Request)
    requires Inv(s) && RemovedDir(s, req).Some?
    ensures RemovedDir(s, req).value !in Step(s, req).0.fs.nodes && Step(s, req).0.handles == s.handles
  {
    match req
    case Rmdir(h, name) => RmdirGoes(s, h, name);
    case Rename(h, name, dstH, dstName) => ReplacedDirGoes(s, h, name, dstH, dstName);
  }

  /** A step keeps the invariant exactly when it removes no directory that a live handle names. */
  lemma {:induction false} StepKeepsInvIff(s: State, req: Request)
    requires Inv(s)
    ensures Inv(Step(s, req).0) <==> Permitted(s, req)
  {
    if Permitted(s, req) {
      StepEffect(s, req);
    } else {
      RemovedDirGoes(s, req);
      var x := RemovedDir(s, req).value;
      var h :| 0 <= h < |s.handles| && s.handles[h].Some? && s.handles[h].value.node == x;
      assert !EntryOk(Step(s, req).0.fs.nodes, s.handles[h].value);
    }
  }
}
