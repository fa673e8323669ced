/**
 What each verb's answer means to a client: when it is given, what it leaves behind, and what it leaves alone.
 Each predicate speaks of the names, the bytes, the attributes and the handles a client can see, before and after.
 */
module Answers {
  import opened Basics
  import opened Engine
  import opened Namespace
  import opened Store
  import opened Visible
  import opened Rights
  import opened Verbs
  import opened ServerInvariant
  import opened ServerSteps
  import opened ServerRuns
  import opened NameTable
  import opened Acceptance
  import opened Refusals
  import Attributes
  import AttrCodec
  import Listing

  // --- what stays ---

  ghost predicate SameNames(s: State, s': State) {
    forall y :: NamesIn(s'.fs.nodes, y) == NamesIn(s.fs.nodes, y)
  }

  /** Every file that is still there has its bytes, except perhaps `but`. */
  ghost predicate SameBytes(s: State, s': State, but: set<Id>) {
    forall x :: IsFile(s.fs.nodes, x) && !Hidden(s.fs.nodes, x) && x in s'.fs.nodes && x !in but ==>
      IsFile(s'.fs.nodes, x) && s'.fs.nodes[x].data == s.fs.nodes[x].data
  }

  ghost predicate SameAttrs(s: State, s': State, but: set<Id>) {
    forall x :: 0 < x < ID_LIMIT && x !in but ==> AttrsOf(s'.fs.nodes, x) == AttrsOf(s.fs.nodes, x)
  }

  /** The lowest free slot now holds `e`, and every other slot is as it was. */
  ghost predicate HandsOut(s: State, s': State, k: nat, e: Entry) {
    && EntryAt(s, k) == Err(EBADF) && EntryAt(s', k) == Ok(e)
    && (forall j: nat :: j < k ==> EntryAt(s, j).Ok?)
    && (forall j: nat :: j != k ==> EntryAt(s', j) == EntryAt(s, j))
  }

  /** Accepted exactly under the condition given; refused with the error of the table, and then nothing has changed. */
  ghost predicate Answered(s: State, req: Request, s': State, reply: Reply, when: bool) {
    (!reply.Fail? <==> when) && AsRefused(Refusal(s, req), reply) && (reply.Fail? ==> s' == s) && (Permitted(s, req) ==> Inv(s'))
  }

  /** The same of an answer that changes nothing. */
  predicate Given<T>(refusal: Option<Errno>, r: Result<T>) {
    if refusal.Some? then r.Err? && r.errno == refusal.value else r.Ok?
  }

  // --- what each verb does ---

  /** A handle on the file under that name, with no more than the directory's rights to read and write; no name or byte changes. */
  ghost predicate OpensFile(s: State, h: nat, name: Bytes, s': State, reply: Reply) {
    && Answered(s, OpenFile(h, name), s', reply, (DirHolds(s, h, {READ}) || DirHolds(s, h, {WRITE})) && SeesFile(s, h, name))
    && (!reply.Fail? ==>
          && reply.Handle? && DirAt(s, h).Ok? && name in Seen(s, h) && s'.fs.nodes == s.fs.nodes
          && HandsOut(s, s', reply.h, FileEntry(Seen(s, h)[name], DirAt(s, h).value.rights * {READ, WRITE})))
  }

  /** A handle on the directory under that name, with exactly the rights asked for; the filesystem is not touched. */
  ghost predicate OpensDir(s: State, h: nat, name: Bytes, requested: Mask, s': State, reply: Reply) {
    && Answered(s, OpenDir(h, name, requested), s', reply, DirHolds(s, h, {DESCEND} + requested * ALL) && SeesDir(s, h, name))
    && (!reply.Fail? ==>
          && reply.Handle? && name in Seen(s, h) && s'.fs == s.fs
          && HandsOut(s, s', reply.h, DirEntry(Seen(s, h)[name], requested * ALL)))
  }

  /** One new name in one directory, for a node that was not there; everything else is as it was. */
  ghost predicate Creates(s: State, h: nat, name: Bytes, hint: Id, s': State) {
    && DirAt(s, h).Ok? && hint !in s.fs.nodes
    && (forall y :: NamesIn(s'.fs.nodes, y) ==
                    if y == DirAt(s, h).value.node then NamesIn(s.fs.nodes, y)[name := hint] else NamesIn(s.fs.nodes, y))
    && SameBytes(s, s', {}) && SameAttrs(s, s', {})
  }

  ghost predicate MakesDir(s: State, h: nat, name: Bytes, requested: Mask, hint: Id, s': State, reply: Reply) {
    && Answered(s, MakeDir(h, name, requested, hint), s', reply, DirHolds(s, h, {CREATE, DESCEND} + requested * ALL) && Creatable(s, h, name, hint))
    && (!reply.Fail? ==>
          && reply.Handle? && Creates(s, h, name, hint, s') && IsDir(s'.fs.nodes, hint)
          && HandsOut(s, s', reply.h, DirEntry(hint, requested * ALL)))
  }

  ghost predicate CreatesFile(s: State, h: nat, name: Bytes, hint: Id, s': State, reply: Reply) {
    && Answered(s, CreateFile(h, name, hint), s', reply, DirHolds(s, h, {CREATE}) && Creatable(s, h, name, hint))
    && (!reply.Fail? ==>
          && reply.Handle? && Creates(s, h, name, hint, s') && IsFile(s'.fs.nodes, hint) && s'.fs.nodes[hint].data == []
          && HandsOut(s, s', reply.h, FileEntry(hint, DirAt(s, h).value.rights * {READ, WRITE})))
  }

  /** The handle's file, and nothing else, has new bytes. */
  ghost predicate Rewrites(s: State, h: nat, bytes: Bytes, s': State) {
    && EntryAt(s, h).Ok? && s'.handles == s.handles && SameNames(s, s') && SameAttrs(s, s', {})
    && var x := EntryAt(s, h).value.node;
       SameBytes(s, s', {x}) && IsFile(s'.fs.nodes, x) && s'.fs.nodes[x].data == bytes
  }

  ghost function BytesAt(s: State, h: nat): Bytes {
    if EntryAt(s, h).Ok? && IsFile(s.fs.nodes, EntryAt(s, h).value.node) then s.fs.nodes[EntryAt(s, h).value.node].data else []
  }

  ghost predicate WritesFile(s: State, h: nat, offset: nat, data: Bytes, s': State, reply: Reply) {
    && Answered(s, Write(h, offset, data), s', reply, FileHolds(s, h, {WRITE}))
    && (!reply.Fail? ==> reply == Wrote(|data|) && Rewrites(s, h, Overlaid(BytesAt(s, h), offset, data), s'))
  }

  ghost predicate TruncatesFile(s: State, h: nat, size: nat, s': State, reply: Reply) {
    && Answered(s, Truncate(h, size), s', reply, FileHolds(s, h, {WRITE}))
    && (!reply.Fail? ==> Rewrites(s, h, Resized(BytesAt(s, h), size), s'))
  }

  /** The bytes from the offset on, as many as there are and were asked for. */
  ghost predicate ReadsFile(s: State, h: nat, offset: nat, len: nat, r: Result<Bytes>) {
    var data := BytesAt(s, h);
    && (r.Ok? <==> FileHolds(s, h, {READ})) && Given(Refusal(s, Read(h, offset, len)), r)
    && (r.Ok? ==>
          && |r.value| == (if offset >= |data| then 0 else if offset + len <= |data| then len else |data| - offset)
          && forall i :: 0 <= i < |r.value| ==> r.value[i] == data[offset + i])
  }

  /** The attribute of that name, in full, and only if there is one and it fits. */
  ghost predicate GetsAttr(s: State, h: nat, name: Bytes, room: nat, r: Result<AttrCodec.Attr>) {
    var found := AttrCodec.Lookup(AttrsAt(s, h), name);
    && (r.Ok? <==> Holds(s, h, {READ}) && AttrCodec.ValidName(name) && found.Some? && |found.value.value| <= room)
    && (r.Ok? ==> found == Some(r.value)) && Given(Refusal(s, GetXattr(h, name, room)), r)
  }

  /** The names of the node's attributes in their order, as many as fit with a length byte each. */
  ghost predicate ListsAttrs(s: State, h: nat, room: nat, r: Result<seq<Bytes>>) {
    var attrs := AttrsAt(s, h);
    && (r.Ok? <==> Holds(s, h, {READ})) && Given(Refusal(s, ListXattr(h, room)), r)
    && (r.Ok? ==>
          && |r.value| <= |attrs| && (forall i :: 0 <= i < |r.value| ==> r.value[i] == attrs[i].name)
          && NameBytes(r.value) <= room
          && (|r.value| < |attrs| ==> NameBytes(r.value) + 1 + |attrs[|r.value|].name| > room))
  }

  /** Whole records of the directory's visible entries from the cursor on, as many as fit. */
  ghost predicate ReadsDir(s: State, h: nat, cursor: nat, room: nat, r: Result<Bytes>) {
    && (r.Ok? <==> DirHolds(s, h, {ENUMERATE})) && Given(Refusal(s, ReadDir(h, cursor, room)), r)
    && (r.Ok? ==>
          && DirAt(s, h).Ok? && IsDir(s.fs.nodes, DirAt(s, h).value.node)
          && Listing.FilledFrom(Dirents(s.fs, DirAt(s, h).value.node), cursor, room, r.value))
  }

  /** A visible file, or a visible empty directory. */
  predicate Removable(s: State, h: nat, name: Bytes, wantDir: bool) {
    if wantDir then SeesDir(s, h, name) && VisibleEntries(s.fs.nodes, Seen(s, h)[name]) == map[] else SeesFile(s, h, name)
  }

  /** What `unlink` and `rmdir` remove: the name, the attributes, and the node unless a file handle still holds it. */
  ghost predicate Removes(s: State, h: nat, name: Bytes, wantDir: bool, s': State, reply: Reply) {
    var req := if wantDir then Rmdir(h, name) else Unlink(h, name);
    && Answered(s, req, s', reply, DirHolds(s, h, {REMOVE}) && Removable(s, h, name, wantDir))
    && (!reply.Fail? && Permitted(s, req) ==>
          && DirAt(s, h).Ok? && name in Seen(s, h) && s'.handles == s.handles
          && var d, x := DirAt(s, h).value.node, Seen(s, h)[name];
             && (forall y :: NamesIn(s'.fs.nodes, y) == if y == d then NamesIn(s.fs.nodes, y) - {name} else NamesIn(s.fs.nodes, y))
             && SameBytes(s, s', {}) && SameAttrs(s, s', {x}) && AttrsOf(s'.fs.nodes, x) == []
             && (x in s'.fs.nodes <==> OpenCount(s.handles, x) > 0))
  }

  /** One name moves; what it replaces loses its attributes; no byte and no other name or attribute changes. */
  ghost predicate Renames(s: State, srcH: nat, src: Bytes, dstH: nat, dst: Bytes, s': State, reply: Reply) {
    var req := Rename(srcH, src, dstH, dst);
    && Answered(s, req, s', reply, Authorized(s, req) && Acceptable(s, req))
    && (!reply.Fail? && Permitted(s, req) ==>
          && DirAt(s, srcH).Ok? && DirAt(s, dstH).Ok? && src in Seen(s, srcH)
          && s'.handles == s.handles && SameBytes(s, s', {})
          && var sp, dp, x := DirAt(s, srcH).value.node, DirAt(s, dstH).value.node, Seen(s, srcH)[src];
             var lost := if dst in Seen(s, dstH) && Seen(s, dstH)[dst] != x then {Seen(s, dstH)[dst]} else {};
             && (forall y :: NamesIn(s'.fs.nodes, y) ==
                             if dst in Seen(s, dstH) && Seen(s, dstH)[dst] == x then NamesIn(s.fs.nodes, y)
                             else Renamed(sp, src, dp, dst, x, y, NamesIn(s.fs.nodes, y)))
             && SameAttrs(s, s', lost) && forall z :: z in lost ==> AttrsOf(s'.fs.nodes, z) == [])
  }

  /** The slot is free again; a file goes exactly if it has no name and this was its last handle. */
  ghost predicate Closes(s: State, h: nat, s': State, reply: Reply) {
    && Answered(s, Close(h), s', reply, h != 0 && EntryAt(s, h).Ok?)
    && (!reply.Fail? ==>
          && h < |s.handles| && s'.handles == s.handles[h := None] && EntryAt(s, h).Ok?
          && SameNames(s, s') && SameBytes(s, s', {}) && SameAttrs(s, s', {})
          && var x := EntryAt(s, h).value.node;
             x in s'.fs.nodes <==> x == ROOT || HasName(s.fs.nodes, x) || OpenCount(s'.handles, x) > 0)
  }

  /** The node's list of attributes becomes `attrs`, and nothing else changes. */
  ghost predicate Retags(s: State, h: nat, attrs: seq<AttrCodec.Attr>, s': State) {
    && s'.handles == s.handles && SameNames(s, s') && SameBytes(s, s', {}) && SameAttrs(s, s', NodeOf(s, h))
    && AttrsAt(s', h) == attrs
  }

  ghost predicate SetsAttr(s: State, h: nat, a: AttrCodec.Attr, dirHint: Id, fileHint: Id, s': State, reply: Reply) {
    && Answered(s, SetXattr(h, a, dirHint, fileHint), s', reply, Holds(s, h, {WRITE}) && Acceptable(s, SetXattr(h, a, dirHint, fileHint)))
    && (!reply.Fail? ==> Retags(s, h, AttrCodec.Put(AttrsAt(s, h), a), s'))
  }

  ghost predicate RemovesAttr(s: State, h: nat, name: Bytes, s': State, reply: Reply) {
    && Answered(s, RemoveXattr(h, name), s', reply, Holds(s, h, {WRITE}) && AttrCodec.ValidName(name) && AttrCodec.Lookup(AttrsAt(s, h), name).Some?)
    && (!reply.Fail? ==> Retags(s, h, AttrCodec.Without(AttrsAt(s, h), name), s'))
  }

  // --- and that they do ---

  /** Only a removal or a rename can be a request that is not permitted. */
  lemma {:induction false} AlwaysPermitted(s: State, req: Request)
    requires Inv(s) && !req.Rmdir? && !req.Rename?
    ensures Permitted(s, req) && Inv(Next(s, req))
  {
    StepKeepsInvIff(s, req);
  }

  lemma {:induction false} BytesKept(s: State, req: Request, but: set<Id>)
    requires Inv(s) && Permitted(s, req) && (req.Write? || req.Truncate? ==> NodeOf(s, req.h) <= but)
    ensures SameBytes(s, Next(s, req), but)
  {
    var s' := Next(s, req);
    forall x | IsFile(s.fs.nodes, x) && !Hidden(s.fs.nodes, x) && x in s'.fs.nodes && x !in but
      ensures IsFile(s'.fs.nodes, x) && s'.fs.nodes[x].data == s.fs.nodes[x].data
    {
      StepKeepsData(s, req, x);
      EditedElsewhere(s, req, x, s.fs.nodes[x].data);
    }
  }

  lemma {:induction false} EditedElsewhere(s: State, req: Request, x: Id, data: Bytes)
    requires req.Write? || req.Truncate? ==> x !in NodeOf(s, req.h)
    ensures Edited(s, req, x, data) == data
  {
  }

  lemma {:induction false} NamesKept(s: State, req: Request)
    requires Inv(s) && Permitted(s, req) && (req.Write? || req.Truncate? || req.Close? || req.SetXattr? || req.RemoveXattr?)
    ensures SameNames(s, Next(s, req))
  {
    forall y ensures NamesIn(Next(s, req).fs.nodes, y) == NamesIn(s.fs.nodes, y) {
      NamesStep(s, req, y);
    }
  }

  lemma {:induction false} AttrsKept(s: State, req: Request, but: set<Id>)
    requires Inv(s) && Permitted(s, req) && Tagged(s, req) <= but
    ensures SameAttrs(s, Next(s, req), but)
  {
    forall x | 0 < x < ID_LIMIT && x !in but ensures AttrsOf(Next(s, req).fs.nodes, x) == AttrsOf(s.fs.nodes, x) {
      Attributes.AttrsStep(s, req, x);
      Attributes.UntaggedIsSame(s, req, x, AttrsOf(s.fs.nodes, x));
    }
  }

  lemma {:induction false} AnswerIs(s: State, req: Request)
    requires Inv(s)
    ensures !Step(s, req).1.Fail? <==> Authorized(s, req) && Acceptable(s, req)
    ensures AsRefused(Refusal(s, req), Step(s, req).1)
    ensures Step(s, req).1.Fail? ==> Next(s, req) == s
    ensures Permitted(s, req) ==> Inv(Next(s, req))
  {
    AcceptedIff(s, req);
    RefusedAs(s, req);
    StepKeepsInvIff(s, req);
    if Step(s, req).1.Fail? {
      FailedIsSame(s, req);
    }
  }

  lemma {:induction false} OpenFileMeans(s: State, h: nat, name: Bytes)
    requires Inv(s)
    ensures OpensFile(s, h, name, Step(s, OpenFile(h, name)).0, Step(s, OpenFile(h, name)).1)
  {
    var req := OpenFile(h, name);
    AnswerIs(s, req);
    AlwaysPermitted(s, req);
    if !Step(s, req).1.Fail? {
      Mints(s, req);
    }
  }

  lemma {:induction false} OpenDirMeans(s: State, h: nat, name: Bytes, requested: Mask)
    requires Inv(s)
    ensures OpensDir(s, h, name, requested, Step(s, OpenDir(h, name, requested)).0, Step(s, OpenDir(h, name, requested)).1)
  {
    var req := OpenDir(h, name, requested);
    AnswerIs(s, req);
    AlwaysPermitted(s, req);
    if !Step(s, req).1.Fail? {
      Mints(s, req);
    }
  }

  lemma {:induction false} CreateMeans(s: State, req: Request)
    requires Inv(s) && (req.MakeDir? || req.CreateFile?) && !Step(s, req).1.Fail?
    ensures Creates(s, req.h, req.name, req.hint, Next(s, req))
  {
    AnswerIs(s, req);
    AlwaysPermitted(s, req);
    BytesKept(s, req, {});
    AttrsKept(s, req, {});
    assert DirAt(s, req.h).Ok?;
    forall y ensures NamesIn(Next(s, req).fs.nodes, y) ==
                     if y == DirAt(s, req.h).value.node then NamesIn(s.fs.nodes, y)[req.name := req.hint] else NamesIn(s.fs.nodes, y)
    {
      NamesStep(s, req, y);
    }
  }

  lemma {:induction false} MakeDirMeans(s: State, h: nat, name: Bytes, requested: Mask, hint: Id)
    requires Inv(s)
    ensures MakesDir(s, h, name, requested, hint, Step(s, MakeDir(h, name, requested, hint)).0, Step(s, MakeDir(h, name, requested, hint)).1)
  {
    var req := MakeDir(h, name, requested, hint);
    AnswerIs(s, req);
    AlwaysPermitted(s, req);
    if !Step(s, req).1.Fail? {
      Mints(s, req);
      CreateMeans(s, req);
      assert EntryOk(Next(s, req).fs.nodes, EntryAt(Next(s, req), Step(s, req).1.h).value);
    }
  }

  lemma {:induction false} CreateFileMeans(s: State, h: nat, name: Bytes, hint: Id)
    requires Inv(s)
    ensures CreatesFile(s, h, name, hint, Step(s, CreateFile(h, name, hint)).0, Step(s, CreateFile(h, name, hint)).1)
  {
    var req := CreateFile(h, name, hint);
    AnswerIs(s, req);
    AlwaysPermitted(s, req);
    if !Step(s, req).1.Fail? {
      Mints(s, req);
      CreateMeans(s, req);
      NewFileIsEmpty(s, h, name, hint);
    }
  }

  lemma {:induction false} NewFileIsEmpty(s: State, h: nat, name: Bytes, hint: Id)
    requires Inv(s) && CreateFileTx(s, h, name, hint).Ok?
    ensures var nodes := CreateFileTx(s, h, name, hint).value.0.nodes; IsFile(nodes, hint) && nodes[hint].data == []
  {
    assert EntryOk(s.fs.nodes, DirAt(s, h).value);
  }

  /** A file handle with the right to write names a file. */
  lemma {:induction false} HeldFile(s: State, h: nat)
    requires Inv(s) && EntryAt(s, h).Ok? && EntryAt(s, h).value.FileEntry?
    ensures IsFile(s.fs.nodes, EntryAt(s, h).value.node) && !Hidden(s.fs.nodes, EntryAt(s, h).value.node)
  {
    assert EntryOk(s.fs.nodes, EntryAt(s, h).value);
  }

  lemma {:induction false} WriteMeans(s: State, h: nat, offset: nat, data: Bytes)
    requires Inv(s)
    ensures WritesFile(s, h, offset, data, Step(s, Write(h, offset, data)).0, Step(s, Write(h, offset, data)).1)
  {
    var req := Write(h, offset, data);
    AnswerIs(s, req);
    AlwaysPermitted(s, req);
    if !Step(s, req).1.Fail? {
      HeldFile(s, h);
      BytesKept(s, req, NodeOf(s, h));
      AttrsKept(s, req, {});
      NamesKept(s, req);
    }
  }

  lemma {:induction false} TruncateMeans(s: State, h: nat, size: nat)
    requires Inv(s)
    ensures TruncatesFile(s, h, size, Step(s, Truncate(h, size)).0, Step(s, Truncate(h, size)).1)
  {
    var req := Truncate(h, size);
    AnswerIs(s, req);
    AlwaysPermitted(s, req);
    if !Step(s, req).1.Fail? {
      HeldFile(s, h);
      BytesKept(s, req, NodeOf(s, h));
      AttrsKept(s, req, {});
      NamesKept(s, req);
    }
  }

  lemma {:induction false} ReadMeans(s: State, h: nat, offset: nat, len: nat)
    requires Inv(s)
    ensures ReadsFile(s, h, offset, len, ReadTx(s, h, offset, len))
  {
    RefusedAs(s, Read(h, offset, len));
    if FileHolds(s, h, {READ}) {
      HeldFile(s, h);
    }
  }

  lemma {:induction false} GetMeans(s: State, h: nat, name: Bytes, room: nat)
    requires Inv(s)
    ensures GetsAttr(s, h, name, room, GetXattrTx(s, h, name, room))
  {
    RefusedAs(s, GetXattr(h, name, room));
    if EntryAt(s, h).Ok? && READ in EntryAt(s, h).value.rights {
      Attributes.AnswersAgree(s, h, name, room);
    }
  }

  lemma {:induction false} ListMeans(s: State, h: nat, room: nat)
    requires Inv(s)
    ensures ListsAttrs(s, h, room, ListXattrTx(s, h, room))
  {
    RefusedAs(s, ListXattr(h, room));
    FittingIsFront(AttrsAt(s, h), room);
    if EntryAt(s, h).Ok? {
      BlobIsGood(s, EntryAt(s, h).value.node);
    }
  }

  lemma {:induction false} ReadDirMeans(s: State, h: nat, cursor: nat, room: nat)
    requires Inv(s)
    ensures ReadsDir(s, h, cursor, room, ReadDirTx(s, h, cursor, room))
  {
    RefusedAs(s, ReadDir(h, cursor, room));
    if DirHolds(s, h, {ENUMERATE}) {
      assert EntryOk(s.fs.nodes, DirAt(s, h).value);
      Listing.PageIsFilled(Dirents(s.fs, DirAt(s, h).value.node), cursor, room);
    }
  }

  lemma {:induction false} SetMeans(s: State, h: nat, a: AttrCodec.Attr, dirHint: Id, fileHint: Id)
    requires Inv(s)
    ensures var req := SetXattr(h, a, dirHint, fileHint); SetsAttr(s, h, a, dirHint, fileHint, Step(s, req).0, Step(s, req).1)
  {
    var req := SetXattr(h, a, dirHint, fileHint);
    AnswerIs(s, req);
    AlwaysPermitted(s, req);
    if !Step(s, req).1.Fail? {
      SetKeeps(s, h, a, dirHint, fileHint);
      NamesKept(s, req);
      BytesKept(s, req, {});
      AttrsKept(s, req, NodeOf(s, h));
    }
  }

  lemma {:induction false} RemoveAttrMeans(s: State, h: nat, name: Bytes)
    requires Inv(s)
    ensures RemovesAttr(s, h, name, Step(s, RemoveXattr(h, name)).0, Step(s, RemoveXattr(h, name)).1)
  {
    var req := RemoveXattr(h, name);
    AnswerIs(s, req);
    AlwaysPermitted(s, req);
    if !Step(s, req).1.Fail? {
      RemoveAttrKeeps(s, h, name);
      NamesKept(s, req);
      BytesKept(s, req, {});
      AttrsKept(s, req, NodeOf(s, h));
    }
  }

  /** What is left of a removed node's names: none. */
  lemma {:induction false} NameGone(s: State, s': State, d: Id, name: Bytes, x: Id)
    requires Inv(s) && Inv(s') && Named(s.fs.nodes, d, name, x) && !Hidden(s.fs.nodes, x) && !Hidden(s'.fs.nodes, x)
    requires forall y :: NamesIn(s'.fs.nodes, y) == if y == d then NamesIn(s.fs.nodes, y) - {name} else NamesIn(s.fs.nodes, y)
    ensures !HasName(s'.fs.nodes, x)
  {
    forall p, n ensures !Named(s'.fs.nodes, p, n, x) {
      if Named(s'.fs.nodes, p, n, x) {
        ParentIsVisible(s'.fs.nodes, p, n, x);
        assert n in NamesIn(s'.fs.nodes, p) && NamesIn(s'.fs.nodes, p)[n] == x;
        assert Named(s.fs.nodes, p, n, x);
      }
    }
  }

  lemma {:induction false} RemoveMeans(s: State, h: nat, name: Bytes, wantDir: bool)
    requires Inv(s)
    ensures var req := if wantDir then Rmdir(h, name) else Unlink(h, name); Removes(s, h, name, wantDir, Step(s, req).0, Step(s, req).1)
  {
    var req := if wantDir then Rmdir(h, name) else Unlink(h, name);
    AnswerIs(s, req);
    if !Step(s, req).1.Fail? && Permitted(s, req) {
      StepKeepsInvIff(s, req);
      FindIsSeen(s, h, name);
      RemoveNames(s, req);
      BytesKept(s, req, {});
      AttrsKept(s, req, {Seen(s, h)[name]});
      Attributes.RemoveClears(s, req, Seen(s, h)[name]);
      RemovedGoes(s, req);
    }
  }

  lemma {:induction false} RemoveNames(s: State, req: Request)
    requires Inv(s) && Permitted(s, req) && (req.Unlink? || req.Rmdir?) && !Step(s, req).1.Fail? && DirAt(s, req.h).Ok?
    ensures forall y :: NamesIn(Next(s, req).fs.nodes, y) ==
                        if y == DirAt(s, req.h).value.node then NamesIn(s.fs.nodes, y) - {req.name} else NamesIn(s.fs.nodes, y)
    ensures Next(s, req).handles == s.handles
  {
    forall y ensures NamesIn(Next(s, req).fs.nodes, y) ==
                     if y == DirAt(s, req.h).value.node then NamesIn(s.fs.nodes, y) - {req.name} else NamesIn(s.fs.nodes, y)
    {
      NamesStep(s, req, y);
    }
  }

  /** The node goes unless a file handle still holds it. */
  lemma {:induction false} RemovedGoes(s: State, req: Request)
    requires Inv(s) && Permitted(s, req) && (req.Unlink? || req.Rmdir?) && !Step(s, req).1.Fail?
    requires DirAt(s, req.h).Ok? && IsComponent(req.name) && req.name in Seen(s, req.h)
    ensures Seen(s, req.h)[req.name] in Next(s, req).fs.nodes <==> OpenCount(s.handles, Seen(s, req.h)[req.name]) > 0
  {
    var s', x := Next(s, req), Seen(s, req.h)[req.name];
    StepKeepsInvIff(s, req);
    FindIsSeen(s, req.h, req.name);
    FoundIsVisible(s.fs.nodes, DirAt(s, req.h).value.node, req.name, x);
    RemoveNames(s, req);
    LiveIff(s', x);
    StepEffect(s, req);
    if x in s'.fs.nodes {
      NameGone(s, s', DirAt(s, req.h).value.node, req.name, x);
    }
  }

  lemma {:induction false} RenameMeans(s: State, srcH: nat, src: Bytes, dstH: nat, dst: Bytes)
    requires Inv(s)
    ensures var req := Rename(srcH, src, dstH, dst); Renames(s, srcH, src, dstH, dst, Step(s, req).0, Step(s, req).1)
  {
    var req := Rename(srcH, src, dstH, dst);
    AnswerIs(s, req);
    if !Step(s, req).1.Fail? && Permitted(s, req) {
      StepKeepsInvIff(s, req);
      FindIsSeen(s, srcH, src);
      FindIsSeen(s, dstH, dst);
      BytesKept(s, req, {});
      RenameNames(s, req);
      RenameAttrs(s, req);
    }
  }

  lemma {:induction false} RenameNames(s: State, req: Request)
    requires Inv(s) && req.Rename? && Permitted(s, req) && !Step(s, req).1.Fail?
    requires DirAt(s, req.h).Ok? && DirAt(s, req.dstH).Ok? && IsComponent(req.name) && IsComponent(req.dstName) && req.name in Seen(s, req.h)
    ensures var sp, dp, x := DirAt(s, req.h).value.node, DirAt(s, req.dstH).value.node, Seen(s, req.h)[req.name];
            forall y :: NamesIn(Next(s, req).fs.nodes, y) ==
                        if req.dstName in Seen(s, req.dstH) && Seen(s, req.dstH)[req.dstName] == x then NamesIn(s.fs.nodes, y)
                        else Renamed(sp, req.name, dp, req.dstName, x, y, NamesIn(s.fs.nodes, y))
    ensures Next(s, req).handles == s.handles
  {
    FindIsSeen(s, req.h, req.name);
    FindIsSeen(s, req.dstH, req.dstName);
    var sp, dp, x := DirAt(s, req.h).value.node, DirAt(s, req.dstH).value.node, Seen(s, req.h)[req.name];
    forall y ensures NamesIn(Next(s, req).fs.nodes, y) ==
                     if req.dstName in Seen(s, req.dstH) && Seen(s, req.dstH)[req.dstName] == x then NamesIn(s.fs.nodes, y)
                     else Renamed(sp, req.name, dp, req.dstName, x, y, NamesIn(s.fs.nodes, y))
    {
      NamesStep(s, req, y);
    }
  }

  lemma {:induction false} RenameAttrs(s: State, req: Request)
    requires Inv(s) && req.Rename? && Permitted(s, req) && !Step(s, req).1.Fail?
    requires DirAt(s, req.h).Ok? && DirAt(s, req.dstH).Ok? && IsComponent(req.name) && IsComponent(req.dstName) && req.name in Seen(s, req.h)
    ensures var x := Seen(s, req.h)[req.name];
            var lost := if req.dstName in Seen(s, req.dstH) && Seen(s, req.dstH)[req.dstName] != x then {Seen(s, req.dstH)[req.dstName]} else {};
            SameAttrs(s, Next(s, req), lost) && forall z :: z in lost ==> AttrsOf(Next(s, req).fs.nodes, z) == []
  {
    FindIsSeen(s, req.h, req.name);
    FindIsSeen(s, req.dstH, req.dstName);
    var x := Seen(s, req.h)[req.name];
    var lost := if req.dstName in Seen(s, req.dstH) && Seen(s, req.dstH)[req.dstName] != x then {Seen(s, req.dstH)[req.dstName]} else {};
    assert Tagged(s, req) == lost;
    AttrsKept(s, req, lost);
    forall z | z in lost ensures AttrsOf(Next(s, req).fs.nodes, z) == [] {
      Attributes.RenameClears(s, req, z);
    }
  }

  lemma {:induction false} CloseMeans(s: State, h: nat)
    requires Inv(s)
    ensures Closes(s, h, Step(s, Close(h)).0, Step(s, Close(h)).1)
  {
    var req := Close(h);
    AnswerIs(s, req);
    AlwaysPermitted(s, req);
    if !Step(s, req).1.Fail? {
      BytesKept(s, req, {});
      AttrsKept(s, req, {});
      NamesKept(s, req);
      ClosedStays(s, h);
    }
  }

  lemma {:induction false} ClosedStays(s: State, h: nat)
    requires Inv(s) && h != 0 && EntryAt(s, h).Ok? && !CloseStep(s, h).1.Fail?
    ensures var x, s' := EntryAt(s, h).value.node, CloseStep(s, h).0;
            && s'.handles == s.handles[h := None]
            && (x in s'.fs.nodes <==> x == ROOT || HasName(s.fs.nodes, x) || OpenCount(s'.handles, x) > 0)
  {
    var x, s' := EntryAt(s, h).value.node, CloseStep(s, h).0;
    StepKeepsInvIff(s, Close(h));
    assert Next(s, Close(h)) == s';
    LiveIff(s', x);
    if EntryAt(s, h).value.FileEntry? {
      LastHandle(s, h);
    }
  }

  lemma {:induction false} LastHandle(s: State, h: nat)
    requires Inv(s) && h != 0 && EntryAt(s, h).Ok? && EntryAt(s, h).value.FileEntry?
    ensures var x, nodes' := EntryAt(s, h).value.node, CloseStep(s, h).0.fs.nodes;
            nodes' == s.fs.nodes || (nodes' == s.fs.nodes - {x} && !HasName(s.fs.nodes, x) && !HasName(nodes', x))
  {
    var x := EntryAt(s, h).value.node;
    CloseCounts(s, h);
    CloseForm(s.fs, x);
    NamedAfterFree(s.fs.nodes, {x});
  }
}
