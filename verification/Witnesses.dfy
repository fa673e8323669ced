/**
 Two concrete runs that show why the hypotheses of the run theorems are there. Both start from an empty
 image bound to the root.
 */
module Witnesses {
  import opened Basics
  import opened Engine
  import opened Namespace
  import opened AttrStore
  import opened Store
  import opened Rights
  import opened Verbs
  import opened ServerInvariant
  import opened ServerSteps
  import opened ServerRuns
  import opened Attributes
  import AttrCodec

  const EMPTY: State := State(Fs(map[ROOT := Dir(1, map[])], map[], {}), [Some(DirEntry(ROOT, ALL))])

  const A: Bytes := [97]
  const B: Bytes := [98]

  const ROOT_HANDLE := Some(DirEntry(ROOT, ALL))

  lemma {:induction false} EmptyIsInitial()
    ensures Initial(EMPTY)
  {
    assert Ranked(EMPTY.fs.nodes, map[]);
  }

  lemma {:induction false} Components()
    ensures IsComponent(A) && IsComponent(B) && A != B && |A| <= NAME_MAX && |B| <= NAME_MAX
    ensures Attenuate(ALL, ALL) == ALL == Root(ALL)
  {
    assert |STORE_DIR| == 11;
    assert ALL * ALL == ALL;
  }

  // --- a stale directory handle ---

  function OneDir(name: Bytes): Fs {
    Fs(map[ROOT := Dir(1, map[name := 2]), 2 := Dir(1, map[])], map[], {})
  }

  const STALE := Some(DirEntry(2, ALL))

  lemma {:induction false} MakesDir(name: Bytes, handles: seq<Option<Entry>>)
    requires IsComponent(name) && |name| <= NAME_MAX && |handles| > 0 && handles[0] == ROOT_HANDLE
    ensures Step(State(EMPTY.fs, handles), MakeDir(0, name, ALL, 2)) ==
            (State(OneDir(name), Installed(handles, DirEntry(2, ALL))), Handle(FirstFree(handles)))
  {
    Components();
    var s := State(EMPTY.fs, handles);
    assert DirAt(s, 0) == Ok(DirEntry(ROOT, ALL));
    assert AddEntry(EMPTY.fs.nodes[2 := Dir(1, map[])], ROOT, name, 2) == OneDir(name).nodes;
    assert CreateNode(EMPTY.fs, ROOT, name, true, 2) == Ok((OneDir(name), 2));
  }

  lemma {:induction false} RemovesDir(name: Bytes, handles: seq<Option<Entry>>)
    requires IsComponent(name) && |handles| > 0 && handles[0] == ROOT_HANDLE
    ensures Step(State(OneDir(name), handles), Rmdir(0, name)) == (State(EMPTY.fs, handles), Done)
    ensures RemovedDir(State(OneDir(name), handles), Rmdir(0, name)) == Some(2)
  {
    var s := State(OneDir(name), handles);
    assert DirAt(s, 0) == Ok(DirEntry(ROOT, ALL));
    assert DropEntry(OneDir(name).nodes, ROOT, name) - {2} == EMPTY.fs.nodes;
    assert RemoveNode(OneDir(name), ROOT, name, true) == Ok((EMPTY.fs, Some(2)));
    assert PurgeAttrs(EMPTY.fs, 2) == Ok(EMPTY.fs);
  }

  /**
   A removed directory's handle is not always answered `ENOENT`: when the engine hands the freed id out
   again, the stale handle names the new directory, whatever its place and its maker.
   */
  lemma {:induction false} StaleHandleReachesAnotherDirectory()
    ensures var s1 := Next(EMPTY, MakeDir(0, A, ALL, 2));
            var s2 := Next(s1, Rmdir(0, A));
            var s3 := Next(s2, MakeDir(0, B, ALL, 2));
            && Inv(s1) && EntryAt(s1, 1) == Ok(DirEntry(2, ALL)) && FindNode(s1.fs, ROOT, A) == Ok(2)
            && !Permitted(s1, Rmdir(0, A)) && Step(s1, Rmdir(0, A)).1 == Done
            && FindNode(s3.fs, ROOT, A).Err? && EntryAt(s3, 1) == Ok(DirEntry(2, ALL)) && FindNode(s3.fs, ROOT, B) == Ok(2)
  {
    Components();
    var handles1, handles3 := [ROOT_HANDLE, STALE], [ROOT_HANDLE, STALE, STALE];
    var s1 := State(OneDir(A), handles1);
    assert FirstFree([ROOT_HANDLE]) == 1 && FirstFree(handles1) == 2 by {
      assert handles1[1..] == [STALE] && handles1[1..][1..] == [];
    }
    MakesDir(A, [ROOT_HANDLE]);
    assert Next(EMPTY, MakeDir(0, A, ALL, 2)) == s1;
    RemovesDir(A, handles1);
    assert s1.handles[1].value.node == 2;
    assert Held(s1, 2);
    MakesDir(B, handles1);
    assert Installed(handles1, DirEntry(2, ALL)) == handles3;
    EmptyIsInitial();
    InitialOk(EMPTY);
    StepKeepsInvIff(EMPTY, MakeDir(0, A, ALL, 2));
  }

  // --- an attribute set on a nameless file ---

  const TAG := AttrCodec.Attr(A, 0, [])
  const HELD := Some(FileEntry(2, {READ, WRITE}))

  function OneFile(name: Bytes): Fs {
    Fs(map[ROOT := Dir(1, map[name := 2]), 2 := File(1, [])], map[2 := 1], {})
  }

  const NAMELESS := Fs(map[ROOT := Dir(1, map[]), 2 := File(1, [])], map[2 := 1], {2})

  /** The image with one attribute, and with or without the nodes `more` and `names` describe. */
  function Leaked(names: map<Bytes, Id>, more: map<Id, Node>, usages: map<Id, nat>, release: set<Id>): Fs {
    Fs(more[ROOT := Dir(1, names[STORE_DIR := 3])][3 := Dir(1, map[FileName(2) := 4])]
           [4 := File(1, AttrCodec.EncodeRecord(TAG))], usages, release)
  }

  const TABLE: seq<Option<Entry>> := [ROOT_HANDLE, HELD]
  const TAGGED := Leaked(map[], map[2 := File(1, [])], map[2 := 1], {2})
  const CLOSED := Leaked(map[], map[], map[], {})
  const REUSED := Leaked(map[B := 2], map[2 := File(1, [])], map[2 := 1], {})

  lemma {:induction false} CreatesFile()
    ensures Step(EMPTY, CreateFile(0, A, 2)) == (State(OneFile(A), TABLE), Handle(1))
  {
    Components();
    var made := OneFile(A).(usages := map[]);
    assert AddEntry(EMPTY.fs.nodes[2 := File(1, [])], ROOT, A, 2) == made.nodes;
    assert CreateNode(EMPTY.fs, ROOT, A, false, 2) == Ok((made, 2));
    assert OnOpenNode(made, 2) == OneFile(A);
    assert Attenuate(ALL, {READ, WRITE}) == {READ, WRITE};
    assert CreateFileTx(EMPTY, 0, A, 2) == Ok((OneFile(A), FileEntry(2, {READ, WRITE})));
    assert FirstFree(EMPTY.handles) == 1;
    assert Installed(EMPTY.handles, FileEntry(2, {READ, WRITE})) == TABLE;
  }

  lemma {:induction false} UnlinksFile()
    ensures Step(State(OneFile(A), TABLE), Unlink(0, A)) == (State(NAMELESS, TABLE), Done)
  {
    Components();
    assert DropEntry(OneFile(A).nodes, ROOT, A) == NAMELESS.nodes;
    assert OneFile(A).release + {2} == {2};
    assert RemoveNode(OneFile(A), ROOT, A, false) == Ok((NAMELESS, Some(2)));
    assert PurgeAttrs(NAMELESS, 2) == Ok(NAMELESS);
  }

  /** The image with the store made for the tag, and with its blob file made but not written. */
  const STORED := Fs(map[ROOT := Dir(1, map[STORE_DIR := 3]), 2 := File(1, []), 3 := Dir(1, map[])], map[2 := 1], {2})
  const MADE := STORED.(nodes := STORED.nodes[3 := Dir(1, map[FileName(2) := 4])][4 := File(1, [])])

  lemma {:induction false} MakesStore()
    ensures EnsureStore(NAMELESS, 3) == Ok((STORED, 3))
    ensures EnsureBlob(STORED, 3, 2, 4) == Ok((MADE, 4))
  {
    assert COLON !in STORE_DIR && |STORE_DIR| == 11;
    assert AddEntry(NAMELESS.nodes[3 := Dir(1, map[])], ROOT, STORE_DIR, 3) == STORED.nodes;
    HexHasNoColon(2, 8);
    assert AddEntry(STORED.nodes[4 := File(1, [])], 3, FileName(2), 4) == MADE.nodes;
  }

  lemma {:induction false} WritesTag()
    ensures WriteAttrs(NAMELESS, 2, AttrCodec.EncodeRecord(TAG), 3, 4) == Ok(TAGGED)
  {
    var blob := AttrCodec.EncodeRecord(TAG);
    MakesStore();
    ReplaceData(MADE, 4, blob);
    assert MADE.nodes[4 := File(1, blob)] == TAGGED.nodes;
  }

  lemma {:induction false} TagsIt()
    ensures SetXattrTx(State(NAMELESS, TABLE), 1, TAG, 3, 4) == Ok(TAGGED)
  {
    assert AttrCodec.Records([]) == [] && AttrCodec.Put([], TAG) == [TAG];
    assert AttrCodec.Encode([TAG]) == AttrCodec.EncodeRecord(TAG) by {
      assert [TAG][1..] == [];
    }
    assert AttrCodec.AllWritable([TAG]) && AttrCodec.Lookup([], TAG.name).None?;
    assert AttrCodec.SetBlob([], TAG) == Ok(AttrCodec.EncodeRecord(TAG));
    assert ReadAttrs(NAMELESS, 2) == Ok([]);
    WritesTag();
  }

  lemma {:induction false} ClosesIt()
    ensures Step(State(TAGGED, TABLE), Close(1)) == (State(CLOSED, [ROOT_HANDLE, None]), Done)
  {
    var fs1 := TAGGED.(usages := TAGGED.usages - {2});
    assert fs1.usages == map[];
    assert (set x | x in fs1.release && Usage(fs1, x) == 0) == {2};
    assert TAGGED.nodes - {2} == CLOSED.nodes && fs1.release - {2} == {};
    assert OnCloseNode(TAGGED, 2) == Ok(CLOSED);
    assert TABLE[1 := None] == [ROOT_HANDLE, None];
  }

  lemma {:induction false} MakesFile()
    ensures CreateNode(CLOSED, ROOT, B, false, 2) == Ok((REUSED.(usages := map[]), 2))
  {
    Components();
    assert B != STORE_DIR && B !in CLOSED.nodes[ROOT].entries;
    assert CLOSED.nodes[ROOT].entries[B := 2] == REUSED.nodes[ROOT].entries;
    assert AddEntry(CLOSED.nodes[2 := File(1, [])], ROOT, B, 2) == REUSED.nodes;
  }

  lemma {:induction false} ReusesId()
    ensures Step(State(CLOSED, [ROOT_HANDLE, None]), CreateFile(0, B, 2)) == (State(REUSED, TABLE), Handle(1))
  {
    Components();
    MakesFile();
    assert OnOpenNode(REUSED.(usages := map[]), 2) == REUSED;
    assert Attenuate(ALL, {READ, WRITE}) == {READ, WRITE};
    var handles := [ROOT_HANDLE, None];
    assert CreateFileTx(State(CLOSED, handles), 0, B, 2) == Ok((REUSED, FileEntry(2, {READ, WRITE})));
    assert FirstFree(handles) == 1 + FirstFree(handles[1..]) && FirstFree(handles[1..]) == 0;
    assert Installed(handles, FileEntry(2, {READ, WRITE})) == TABLE;
  }

  lemma {:induction false} ReadsTag()
    ensures GetXattrTx(State(REUSED, TABLE), 1, A, AttrCodec.MAX_VALUE) == Ok(TAG)
  {
    var blob := AttrCodec.EncodeRecord(TAG);
    assert ReadAttrs(REUSED, 2) == Ok(blob) by {
      assert FindNode(REUSED, 3, FileName(2)) == Ok(4);
      assert blob[0..|blob|] == blob;
    }
    assert AttrCodec.Records(blob) == [TAG] by {
      AttrCodec.RecordsOfFront(TAG, []);
      assert blob + [] == blob;
    }
  }

  const S1 := State(OneFile(A), TABLE)
  const S2 := State(NAMELESS, TABLE)
  const S3 := State(TAGGED, TABLE)
  const S4 := State(CLOSED, [ROOT_HANDLE, None])
  const S5 := State(REUSED, TABLE)

  lemma {:induction false} IsNameless()
    ensures EntryAt(S2, 1) == Ok(FileEntry(2, {READ, WRITE})) && Nameless(S2, 2)
  {
  }

  lemma {:induction false} NamelessIsTagged()
    ensures TagsNameless(S2, SetXattr(1, TAG, 3, 4)) && Next(S2, SetXattr(1, TAG, 3, 4)) == S3
  {
    IsNameless();
    TagsIt();
    SetStep(S2, 1, TAG, 3, 4);
  }

  lemma {:induction false} SetStep(s: State, h: nat, a: AttrCodec.Attr, dirHint: Id, fileHint: Id)
    requires SetXattrTx(s, h, a, dirHint, fileHint).Ok?
    ensures Step(s, SetXattr(h, a, dirHint, fileHint)) == (s.(fs := SetXattrTx(s, h, a, dirHint, fileHint).value), Done)
  {
  }

  /**
   An attribute set on an unlinked open file outlives the file: the file that gets the freed id next,
   by a name of its own, has it.
   */
  lemma {:induction false} AttributeLeaks()
    ensures Next(EMPTY, CreateFile(0, A, 2)) == S1
    ensures Next(S1, Unlink(0, A)) == S2
    ensures TagsNameless(S2, SetXattr(1, TAG, 3, 4)) && Next(S2, SetXattr(1, TAG, 3, 4)) == S3
    ensures Next(S3, Close(1)) == S4 && FreeId(S4.fs, 2)
    ensures Next(S4, CreateFile(0, B, 2)) == S5 && FindNode(S5.fs, ROOT, B) == Ok(2)
    ensures GetXattrTx(S5, 1, A, AttrCodec.MAX_VALUE) == Ok(TAG)
  {
    CreatesFile();
    UnlinksFile();
    NamelessIsTagged();
    ClosesIt();
    ReusesId();
    ReadsTag();
  }
}
