/**
 What clients see of the namespace, over whole runs: the names of every directory are what the accepted
 creations, removals and renames make of them, and no other request changes a name anywhere.
 */
module NameTable {
  import opened Basics
  import opened Engine
  import opened Namespace
  import opened AttrStore
  import opened Store
  import opened Visible
  import opened Verbs
  import opened ServerInvariant
  import opened ServerSteps
  import opened ServerRuns

  /** The names a client can reach in directory `y`: none in the store, and not the store itself. */
  ghost function NamesIn(nodes: map<Id, Node>, y: Id): map<Bytes, Id> {
    if Hidden(nodes, y) then map[] else VisibleEntries(nodes, y)
  }

  predicate NamesDir(s: State, h: nat, y: Id) {
    DirAt(s, h).Ok? && DirAt(s, h).value.node == y
  }

  /** What one request makes of the names of directory `y`. A refused request changes none. */
  function Relisted(s: State, req: Request, y: Id, names: map<Bytes, Id>): map<Bytes, Id> {
    if Step(s, req).1.Fail? then names
    else
      match req
      case MakeDir(h, name, _, hint) => if NamesDir(s, h, y) then names[name := hint] else names
      case CreateFile(h, name, hint) => if NamesDir(s, h, y) then names[name := hint] else names
      case Unlink(h, name) => if NamesDir(s, h, y) then names - {name} else names
      case Rmdir(h, name) => if NamesDir(s, h, y) then names - {name} else names
      case Rename(h, name, dstH, dstName) =>
        if DirAt(s, h).Ok? && DirAt(s, dstH).Ok? then
          var sp, dp := DirAt(s, h).value.node, DirAt(s, dstH).value.node;
          var moved := FindNode(s.fs, sp, name);
          if moved.Err? || moved == FindNode(s.fs, dp, dstName) then names
          else Renamed(sp, name, dp, dstName, moved.value, y, names)
        else names
      case _ => names
  }

  /** One name moved: `y` gains it as the destination, then loses it as the source. */
  function Renamed(sp: Id, sn: Bytes, dp: Id, dn: Bytes, x: Id, y: Id, names: map<Bytes, Id>): map<Bytes, Id> {
    var added := if y == dp then names[dn := x] else names;
    if y == sp then added - {sn} else added
  }

  function NamesAfter(s: State, reqs: seq<Request>, y: Id, names: map<Bytes, Id>): map<Bytes, Id>
    decreases reqs
  {
    if reqs == [] then names else NamesAfter(Next(s, reqs[0]), reqs[1..], y, Relisted(s, reqs[0], y, names))
  }

  lemma {:induction false} CreateLists(fs: Fs, p: Id, n: Bytes, isDir: bool, hint: Id)
    requires CreateNode(fs, p, n, isDir, hint).Ok? && n != STORE_DIR
    ensures VisibleEntries(CreateNode(fs, p, n, isDir, hint).value.0.nodes, p) == VisibleEntries(fs.nodes, p)[n := hint]
  {
  }

  lemma {:induction false} RemoveLists(fs: Fs, p: Id, n: Bytes, wantDir: bool)
    requires FsOk(fs) && RemoveNode(fs, p, n, wantDir).Ok? && n != STORE_DIR
    ensures VisibleEntries(RemoveNode(fs, p, n, wantDir).value.0.nodes, p) == VisibleEntries(fs.nodes, p) - {n}
  {
    RemoveForm(fs, p, n, wantDir);
    NotOwnParent(fs.nodes, p, n, fs.nodes[p].entries[n]);
  }

  lemma {:induction false} MoveLists(nodes: map<Id, Node>, sp: Id, sn: Bytes, dp: Id, dn: Bytes, x: Id, y: Id)
    requires IsDir(nodes, sp) && IsDir(nodes, dp) && sn != STORE_DIR && dn != STORE_DIR && (y == sp || y == dp)
    ensures VisibleEntries(Moved(nodes, sp, sn, dp, dn, x), y) == Renamed(sp, sn, dp, dn, x, y, VisibleEntries(nodes, y))
  {
  }

  /** Clearing the destination changes no other name, and the move then gives the cleared name away. */
  lemma {:induction false} ClearLists(fs: Fs, dp: Id, dn: Bytes, y: Id)
    requires FsOk(fs) && IsDir(fs.nodes, dp) && dn != STORE_DIR && IsDir(fs.nodes, y) && IsDir(Cleared(fs, dp, dn).nodes, y)
    ensures VisibleEntries(Cleared(fs, dp, dn).nodes, y) ==
            if y == dp && FindNode(fs, dp, dn).Ok? then VisibleEntries(fs.nodes, y) - {dn} else VisibleEntries(fs.nodes, y)
  {
  }

  lemma {:induction false} RenameLists(fs: Fs, sp: Id, sn: Bytes, dp: Id, dn: Bytes, y: Id)
    requires FsOk(fs) && RenameNode(fs, sp, sn, dp, dn).Ok? && sn != STORE_DIR && dn != STORE_DIR
    requires FindNode(fs, sp, sn).Ok? && FindNode(fs, dp, dn) != FindNode(fs, sp, sn)
    requires (IsDir(fs.nodes, FindNode(fs, sp, sn).value) ==> sp == dp) && (y == sp || y == dp) && IsDir(fs.nodes, y)
    ensures VisibleEntries(RenameNode(fs, sp, sn, dp, dn).value.nodes, y) ==
            Renamed(sp, sn, dp, dn, FindNode(fs, sp, sn).value, y, VisibleEntries(fs.nodes, y))
  {
    var x := FindNode(fs, sp, sn).value;
    RenameForm(fs, sp, sn, dp, dn);
    var mid := Cleared(fs, dp, dn).nodes;
    MoveLists(mid, sp, sn, dp, dn, x, y);
    ClearLists(fs, dp, dn, y);
    if y == dp {
      ClearedAnyway(sp, sn, dp, dn, x, y, VisibleEntries(fs.nodes, y));
    }
  }

  lemma {:induction false} ClearedAnyway(sp: Id, sn: Bytes, dp: Id, dn: Bytes, x: Id, y: Id, names: map<Bytes, Id>)
    requires y == dp
    ensures Renamed(sp, sn, dp, dn, x, y, names - {dn}) == Renamed(sp, sn, dp, dn, x, y, names)
  {
    assert (names - {dn})[dn := x] == names[dn := x];
  }

  lemma {:induction false} CreateRelists(s: State, req: Request, y: Id)
    requires Inv(s) && (req.MakeDir? || req.CreateFile?) && !Step(s, req).1.Fail? && NamesDir(s, req.h, y)
    ensures VisibleEntries(Next(s, req).fs.nodes, y) == Relisted(s, req, y, VisibleEntries(s.fs.nodes, y))
  {
    CreateLists(s.fs, y, req.name, req.MakeDir?, req.hint);
  }

  lemma {:induction false} RemoveRelists(s: State, req: Request, y: Id)
    requires Inv(s) && (req.Unlink? || req.Rmdir?) && Permitted(s, req) && !Step(s, req).1.Fail? && NamesDir(s, req.h, y)
    ensures VisibleEntries(Next(s, req).fs.nodes, y) == Relisted(s, req, y, VisibleEntries(s.fs.nodes, y))
  {
    var wantDir := req.Rmdir?;
    RemoveSplit(s, req.h, req.name, wantDir);
    RemoveEdits(s, req.h, req.name, wantDir);
    RemoveLists(s.fs, y, req.name, wantDir);
    var (fs1, gone) := RemoveNode(s.fs, y, req.name, wantDir).value;
    EditMayPurge(s, fs1, {y}, Ok(gone.value), RemoveTx(s, req.h, req.name, wantDir));
  }

  /** A rename that moves something: the clearing, the move and the purge behind them, as one edit of the names. */
  lemma {:induction false} RenameTxLists(s: State, srcH: nat, src: Bytes, dstH: nat, dst: Bytes, y: Id)
    requires Inv(s) && RenameTx(s, srcH, src, dstH, dst).Ok? && Permitted(s, Rename(srcH, src, dstH, dst))
    requires DirAt(s, srcH).Ok? && DirAt(s, dstH).Ok?
    requires FindNode(s.fs, DirAt(s, dstH).value.node, dst) != FindNode(s.fs, DirAt(s, srcH).value.node, src)
    requires y == DirAt(s, srcH).value.node || y == DirAt(s, dstH).value.node
    ensures FindNode(s.fs, DirAt(s, srcH).value.node, src).Ok?
    ensures var sp, dp := DirAt(s, srcH).value.node, DirAt(s, dstH).value.node;
            VisibleEntries(RenameTx(s, srcH, src, dstH, dst).value.nodes, y) ==
            Renamed(sp, src, dp, dst, FindNode(s.fs, sp, src).value, y, VisibleEntries(s.fs.nodes, y))
  {
    RenameSplit(s, srcH, src, dstH, dst);
    var sp, dp := DirAt(s, srcH).value.node, DirAt(s, dstH).value.node;
    RenameLists(s.fs, sp, src, dp, dst, y);
    RenameStepped(s, srcH, src, dstH, dst);
  }

  lemma {:induction false} RenameRelists(s: State, req: Request, y: Id)
    requires Inv(s) && req.Rename? && Permitted(s, req) && !Step(s, req).1.Fail?
    requires NamesDir(s, req.h, y) || NamesDir(s, req.dstH, y)
    ensures VisibleEntries(Next(s, req).fs.nodes, y) == Relisted(s, req, y, VisibleEntries(s.fs.nodes, y))
  {
    assert RenameTx(s, req.h, req.name, req.dstH, req.dstName).Ok?;
    var sp, dp := DirAt(s, req.h).value.node, DirAt(s, req.dstH).value.node;
    if FindNode(s.fs, dp, req.dstName) != FindNode(s.fs, sp, req.name) {
      RenameTxLists(s, req.h, req.name, req.dstH, req.dstName, y);
    }
  }

  /** Only a request through a handle on `y` can relist it. */
  lemma {:induction false} UntouchedSame(s: State, req: Request, y: Id, names: map<Bytes, Id>)
    requires y !in Touched(s, req) || req.Write? || req.Truncate?
    ensures Relisted(s, req, y, names) == names
  {
  }

  lemma {:induction false} UntouchedKept(s: State, req: Request, y: Id)
    requires Inv(s) && Permitted(s, req) && y !in Touched(s, req)
    ensures NamesIn(Next(s, req).fs.nodes, y) == NamesIn(s.fs.nodes, y)
  {
    StepEffect(s, req);
  }

  /** A directory a request touches is visible before and after. */
  lemma {:induction false} TouchedVisible(s: State, req: Request, y: Id)
    requires Inv(s) && Permitted(s, req) && y in Touched(s, req)
    ensures y in s.fs.nodes && y in Next(s, req).fs.nodes && !Hidden(s.fs.nodes, y) && !Hidden(Next(s, req).fs.nodes, y)
    ensures IsDir(s.fs.nodes, y) <==> IsDir(Next(s, req).fs.nodes, y)
  {
    var g := if req.Rename? && NodeOf(s, req.h) != {y} then req.dstH else req.h;
    assert EntryOk(s.fs.nodes, EntryAt(s, g).value);
    StepEffect(s, req);
  }

  lemma {:induction false} HandleNamesDir(s: State, y: Id)
    requires Inv(s)
    ensures forall h :: NamesDir(s, h, y) ==> IsDir(s.fs.nodes, y)
  {
    forall h | NamesDir(s, h, y) ensures IsDir(s.fs.nodes, y) {
      assert EntryOk(s.fs.nodes, DirAt(s, h).value);
    }
  }

  lemma {:induction false} UnlistedSame(s: State, req: Request, y: Id, names: map<Bytes, Id>)
    requires forall h :: !NamesDir(s, h, y)
    ensures Relisted(s, req, y, names) == names
  {
    assert req.Rename? ==> !NamesDir(s, req.h, y) && !NamesDir(s, req.dstH, y);
  }

  /** One request relists every directory exactly as its reply says. */
  lemma {:induction false} NamesStep(s: State, req: Request, y: Id)
    requires Inv(s) && Permitted(s, req)
    ensures NamesIn(Next(s, req).fs.nodes, y) == Relisted(s, req, y, NamesIn(s.fs.nodes, y))
  {
    if y !in Touched(s, req) {
      UntouchedKept(s, req, y);
      UntouchedSame(s, req, y, NamesIn(s.fs.nodes, y));
    } else if !IsDir(s.fs.nodes, y) {
      HandleNamesDir(s, y);
      UnlistedSame(s, req, y, NamesIn(s.fs.nodes, y));
      TouchedVisible(s, req, y);
    } else {
      TouchedVisible(s, req, y);
      DirRelists(s, req, y);
    }
  }

  lemma {:induction false} DirRelists(s: State, req: Request, y: Id)
    requires Inv(s) && Permitted(s, req) && y in Touched(s, req) && IsDir(s.fs.nodes, y)
    ensures VisibleEntries(Next(s, req).fs.nodes, y) == Relisted(s, req, y, VisibleEntries(s.fs.nodes, y))
  {
    if Step(s, req).1.Fail? {
      FailedIsSame(s, req);
    } else {
      TouchingDir(s, req, y);
      match req
      case MakeDir(_, _, _, _) => CreateRelists(s, req, y);
      case CreateFile(_, _, _) => CreateRelists(s, req, y);
      case Unlink(_, _) => RemoveRelists(s, req, y);
      case Rmdir(_, _) => RemoveRelists(s, req, y);
      case Rename(_, _, _, _) => RenameRelists(s, req, y);
    }
  }

  lemma {:induction false} TouchingDir(s: State, req: Request, y: Id)
    requires Inv(s) && y in Touched(s, req) && IsDir(s.fs.nodes, y) && !Step(s, req).1.Fail?
    ensures req.MakeDir? || req.CreateFile? || req.Unlink? || req.Rmdir? || req.Rename?
    ensures NamesDir(s, req.h, y) || (req.Rename? && NamesDir(s, req.dstH, y))
  {
    var g := if req.Rename? && NodeOf(s, req.h) != {y} then req.dstH else req.h;
    assert EntryOk(s.fs.nodes, EntryAt(s, g).value);
  }

  /** Every run: the names of every directory are what the accepted requests say. */
  lemma {:induction false} NamesRefineTable(s: State, reqs: seq<Request>, y: Id)
    requires Inv(s) && RunPermitted(s, reqs)
    ensures NamesIn(Run(s, reqs).fs.nodes, y) == NamesAfter(s, reqs, y, NamesIn(s.fs.nodes, y))
    decreases reqs
  {
    if reqs != [] {
      StepKeepsInvIff(s, reqs[0]);
      NamesStep(s, reqs[0], y);
      NamesRefineTable(Next(s, reqs[0]), reqs[1..], y);
    }
  }
}
