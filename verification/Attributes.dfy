/**
 Extended attributes over whole runs. The store of blobs behaves as a map from nodes to attribute
 lists: every run agrees with the map, renames never move or lose an entry, and a freed node id has
 none, so an id that is handed out again starts empty, as long as nobody sets an attribute on a node
 that has already lost its last name.
 */
module Attributes {
  import opened Basics
  import opened Engine
  import opened Namespace
  import opened AttrStore
  import opened Store
  import opened Rights
  import opened Verbs
  import opened ServerInvariant
  import opened ServerSteps
  import opened ServerRuns
  import AttrCodec

  // --- the store refines a map ---

  /** The node a successful request takes the last name of. */
  function Unnamed(s: State, req: Request): set<Id> {
    if req.Unlink? || req.Rmdir? || req.Rename? then Tagged(s, req) else {}
  }

  /** What one request makes of node `x`'s attributes. */
  function Retagged(s: State, req: Request, x: Id, attrs: seq<AttrCodec.Attr>): seq<AttrCodec.Attr> {
    if Step(s, req).1.Fail? then attrs
    else if req.SetXattr? && NodeOf(s, req.h) == {x} then AttrCodec.Put(attrs, req.attr)
    else if req.RemoveXattr? && NodeOf(s, req.h) == {x} then AttrCodec.Without(attrs, req.name)
    else if x in Unnamed(s, req) then []
    else attrs
  }

  /** Node `x`'s attributes after a run that starts with it having `attrs`. */
  function AttrsAfter(s: State, reqs: seq<Request>, x: Id, attrs: seq<AttrCodec.Attr>): seq<AttrCodec.Attr>
    decreases reqs
  {
    if reqs == [] then attrs else AttrsAfter(Next(s, reqs[0]), reqs[1..], x, Retagged(s, reqs[0], x, attrs))
  }

  lemma {:induction false} RemoveClears(s: State, req: Request, x: Id)
    requires Inv(s) && Permitted(s, req) && (req.Unlink? || req.Rmdir?) && !Step(s, req).1.Fail?
    requires x in Tagged(s, req)
    ensures AttrsOf(Next(s, req).fs.nodes, x) == []
  {
    RemoveKeeps(s, req.h, req.name, req.Rmdir?);
  }

  lemma {:induction false} RenameClears(s: State, req: Request, x: Id)
    requires Inv(s) && Permitted(s, req) && req.Rename? && !Step(s, req).1.Fail?
    requires x in Tagged(s, req)
    ensures AttrsOf(Next(s, req).fs.nodes, x) == []
  {
    RenameKeeps(s, req.h, req.name, req.dstH, req.dstName);
    RenameSets(s, req.h, req.name, req.dstH, req.dstName);
  }

  lemma {:induction false} TagStep(s: State, req: Request, x: Id)
    requires Inv(s) && (req.SetXattr? || req.RemoveXattr?) && !Step(s, req).1.Fail? && NodeOf(s, req.h) == {x}
    ensures AttrsOf(Next(s, req).fs.nodes, x) == Retagged(s, req, x, AttrsOf(s.fs.nodes, x))
    ensures Next(s, req).fs.release == s.fs.release
  {
    match req
    case SetXattr(h, a, dirHint, fileHint) => SetKeeps(s, h, a, dirHint, fileHint);
    case RemoveXattr(h, name) => RemoveAttrKeeps(s, h, name);
  }

  lemma {:induction false} UntaggedStep(s: State, req: Request, x: Id)
    requires Inv(s) && Permitted(s, req) && 0 < x < ID_LIMIT && x !in Tagged(s, req)
    ensures Blob(Next(s, req).fs.nodes, x) == Blob(s.fs.nodes, x)
  {
    StepEffect(s, req);
  }

  lemma {:induction false} UntaggedIsSame(s: State, req: Request, x: Id, attrs: seq<AttrCodec.Attr>)
    requires x !in Tagged(s, req) || Step(s, req).1.Fail?
    ensures Retagged(s, req, x, attrs) == attrs
  {
  }

  lemma {:induction false} UnnamedClears(s: State, req: Request, x: Id)
    requires Inv(s) && Permitted(s, req) && x in Unnamed(s, req) && !Step(s, req).1.Fail?
    ensures AttrsOf(Next(s, req).fs.nodes, x) == []
  {
    if req.Rename? {
      RenameClears(s, req, x);
    } else {
      RemoveClears(s, req, x);
    }
  }

  /** One request changes node `x`'s attributes as the map says. */
  lemma {:induction false} AttrsStep(s: State, req: Request, x: Id)
    requires Inv(s) && Permitted(s, req) && 0 < x < ID_LIMIT
    ensures AttrsOf(Next(s, req).fs.nodes, x) == Retagged(s, req, x, AttrsOf(s.fs.nodes, x))
  {
    if x !in Tagged(s, req) || Step(s, req).1.Fail? {
      UntaggedIsSame(s, req, x, AttrsOf(s.fs.nodes, x));
      if Step(s, req).1.Fail? {
        FailedIsSame(s, req);
      } else {
        UntaggedStep(s, req, x);
      }
    } else if req.SetXattr? || req.RemoveXattr? {
      TagStep(s, req, x);
    } else {
      UnnamedClears(s, req, x);
    }
  }

  /** Every run agrees with the map. */
  lemma {:induction false} StoreRefinesMap(s: State, reqs: seq<Request>, x: Id)
    requires Inv(s) && RunPermitted(s, reqs) && 0 < x < ID_LIMIT
    ensures AttrsOf(Run(s, reqs).fs.nodes, x) == AttrsAfter(s, reqs, x, AttrsOf(s.fs.nodes, x))
    decreases reqs
  {
    if reqs != [] {
      AttrsStep(s, reqs[0], x);
      StepKeepsInvIff(s, reqs[0]);
      StoreRefinesMap(Next(s, reqs[0]), reqs[1..], x);
    }
  }

  /** What `get` and `list` answer is what the map holds. */
  lemma {:induction false} AnswersAgree(s: State, h: nat, name: Bytes, room: nat)
    requires Inv(s) && EntryAt(s, h).Ok? && READ in EntryAt(s, h).value.rights
    ensures var attrs := AttrsOf(s.fs.nodes, EntryAt(s, h).value.node);
            var found := AttrCodec.Lookup(attrs, name);
            && GetXattrTx(s, h, name, room) ==
               (if !AttrCodec.ValidName(name) then Err(ERANGE)
                else if found.None? then Err(ENODATA)
                else if room < |found.value.value| then Err(ERANGE)
                else Ok(found.value))
            && ListXattrTx(s, h, room) == Ok(FittingNames(attrs, room))
  {
    BlobIsGood(s, EntryAt(s, h).value.node);
  }

  /** Set then get, through any handle on the node: the attribute just set, and every other as it was. */
  lemma {:induction false} SetThenGet(s: State, h: nat, a: AttrCodec.Attr, dirHint: Id, fileHint: Id, x: Id, name: Bytes)
    requires Inv(s) && SetXattrTx(s, h, a, dirHint, fileHint).Ok? && 0 < x < ID_LIMIT
    ensures EntryAt(s, h).Ok?
    ensures AttrCodec.Lookup(AttrsOf(SetXattrTx(s, h, a, dirHint, fileHint).value.nodes, x), name) ==
              if EntryAt(s, h).value.node == x && name == a.name then Some(a)
              else AttrCodec.Lookup(AttrsOf(s.fs.nodes, x), name)
  {
    SetKeeps(s, h, a, dirHint, fileHint);
    AttrCodec.PutIsUpdate(AttrsOf(s.fs.nodes, x), a, name);
  }

  // --- renames ---

  /** A rename leaves the attributes of every node but the one it replaces; above all, of the node it moves. */
  lemma {:induction false} RenamesKeepAttrs(s: State, reqs: seq<Request>, x: Id)
    requires Inv(s) && RunPermitted(s, reqs) && 0 < x < ID_LIMIT
    requires NeverReplaced(s, reqs, x)
    ensures AttrsOf(Run(s, reqs).fs.nodes, x) == AttrsOf(s.fs.nodes, x)
    decreases reqs
  {
    if reqs != [] {
      AttrsStep(s, reqs[0], x);
      StepKeepsInvIff(s, reqs[0]);
      RenamesKeepAttrs(Next(s, reqs[0]), reqs[1..], x);
    }
  }

  /** A run of renames, none of which succeeds in putting another node in the place of `x`. */
  ghost predicate NeverReplaced(s: State, reqs: seq<Request>, x: Id)
    decreases reqs
  {
    reqs == [] ||
    (reqs[0].Rename? && (Step(s, reqs[0]).1.Fail? || x !in Unnamed(s, reqs[0])) && NeverReplaced(Next(s, reqs[0]), reqs[1..], x))
  }

  // --- nothing leaks to a reused id ---

  /** Every node with attributes is visible and can still be reached by a name. */
  ghost predicate AttrsNamed(nodes: map<Id, Node>) {
    forall x :: 0 < x < ID_LIMIT && Blob(nodes, x) != [] ==> !Hidden(nodes, x) && (x == ROOT || HasName(nodes, x))
  }

  ghost predicate Nameless(s: State, x: Id) {
    x != ROOT && !HasName(s.fs.nodes, x)
  }

  /** The request sets an attribute on a node that has lost its last name. */
  ghost predicate TagsNameless(s: State, req: Request) {
    req.SetXattr? && !Step(s, req).1.Fail? && EntryAt(s, req.h).Ok? && Nameless(s, EntryAt(s, req.h).value.node)
  }

  /** Setting and removing attributes names and unnames nothing. */
  lemma {:induction false} TagKeepsName(s: State, req: Request, x: Id)
    requires Inv(s) && Inv(Next(s, req)) && x in s.fs.nodes && x in Next(s, req).fs.nodes
    requires Next(s, req).fs.release == s.fs.release
    ensures Nameless(Next(s, req), x) <==> Nameless(s, x)
  {
  }

  lemma {:induction false} AttrsNamedStep(s: State, req: Request)
    requires Inv(s) && Permitted(s, req) && AttrsNamed(s.fs.nodes)
    ensures AttrsNamed(Next(s, req).fs.nodes) <==> !TagsNameless(s, req)
  {
    StepKeepsInvIff(s, req);
    if Step(s, req).1.Fail? {
      FailedIsSame(s, req);
    } else if req.SetXattr? || req.RemoveXattr? {
      TaggingStep(s, req);
    } else {
      forall x | 0 < x < ID_LIMIT && Blob(Next(s, req).fs.nodes, x) != []
        ensures !Hidden(Next(s, req).fs.nodes, x) && (x == ROOT || HasName(Next(s, req).fs.nodes, x))
      {
        if x in Tagged(s, req) {
          AttrsStep(s, req, x);
          BlobIsGood(Next(s, req), x);
          assert false;
        }
        UntaggedKeeps(s, req, x);
      }
    }
  }

  lemma {:induction false} UntaggedKeeps(s: State, req: Request, x: Id)
    requires Inv(s) && Permitted(s, req) && AttrsNamed(s.fs.nodes) && 0 < x < ID_LIMIT
    requires x !in Tagged(s, req) && Blob(Next(s, req).fs.nodes, x) != []
    ensures !Hidden(Next(s, req).fs.nodes, x) && (x == ROOT || HasName(Next(s, req).fs.nodes, x))
  {
    var nodes, nodes' := s.fs.nodes, Next(s, req).fs.nodes;
    StepEffect(s, req);
    assert Blob(nodes, x) != [];
    if x != ROOT {
      assert HasName(nodes', x);
      var p, n :| Named(nodes', p, n, x);
      var q, m :| Named(nodes, q, m, x);
    }
    assert x in nodes && x in nodes';
  }

  /** The node whose attributes were just set or removed. */
  lemma {:induction false} TaggedNode(s: State, req: Request, x: Id)
    requires Inv(s) && AttrsNamed(s.fs.nodes) && (req.SetXattr? || req.RemoveXattr?) && !Step(s, req).1.Fail?
    requires Inv(Next(s, req)) && NodeOf(s, req.h) == {x}
    ensures var nodes' := Next(s, req).fs.nodes;
            && 0 < x < ID_LIMIT && !Hidden(nodes', x) && (Nameless(Next(s, req), x) <==> Nameless(s, x))
            && (req.SetXattr? ==> Blob(nodes', x) != [])
            && (req.RemoveXattr? && Nameless(s, x) ==> Blob(nodes', x) == [])
  {
    SlotKept(s, req, req.h);
    assert EntryOk(s.fs.nodes, EntryAt(s, req.h).value) && EntryOk(Next(s, req).fs.nodes, EntryAt(s, req.h).value);
    TagStep(s, req, x);
    TagKeepsName(s, req, x);
    BlobIsGood(s, x);
    BlobIsGood(Next(s, req), x);
    assert req.RemoveXattr? ==> AttrCodec.Without([], req.name) == [];
  }

  lemma {:induction false} TaggingStep(s: State, req: Request)
    requires Inv(s) && AttrsNamed(s.fs.nodes) && (req.SetXattr? || req.RemoveXattr?) && !Step(s, req).1.Fail?
    requires Inv(Next(s, req))
    ensures AttrsNamed(Next(s, req).fs.nodes) <==> !TagsNameless(s, req)
  {
    var x, nodes' := EntryAt(s, req.h).value.node, Next(s, req).fs.nodes;
    TaggedNode(s, req, x);
    forall y | 0 < y < ID_LIMIT && Blob(nodes', y) != [] && y != x
      ensures !Hidden(nodes', y) && (y == ROOT || HasName(nodes', y))
    {
      UntaggedKeeps(s, req, y);
    }
  }

  /** No request of the run sets an attribute on a nameless node. */
  ghost predicate NeverTagsNameless(s: State, reqs: seq<Request>)
    decreases reqs
  {
    reqs == [] || (!TagsNameless(s, reqs[0]) && NeverTagsNameless(Next(s, reqs[0]), reqs[1..]))
  }

  /** Attributes never outlive their node: after such a run no free id has any, so a reused id starts empty. */
  lemma {:induction false} NoLeak(s: State, reqs: seq<Request>, x: Id)
    requires Inv(s) && RunPermitted(s, reqs) && AttrsNamed(s.fs.nodes) && NeverTagsNameless(s, reqs)
    ensures AttrsNamed(Run(s, reqs).fs.nodes)
    ensures FreeId(Run(s, reqs).fs, x) ==> AttrsOf(Run(s, reqs).fs.nodes, x) == []
    decreases reqs
  {
    if reqs != [] {
      AttrsNamedStep(s, reqs[0]);
      StepKeepsInvIff(s, reqs[0]);
      NoLeak(Next(s, reqs[0]), reqs[1..], x);
    } else if HasName(s.fs.nodes, x) {
      var p, n :| Named(s.fs.nodes, p, n, x);
    }
  }

  // --- the store directory ---

  /** The store directory exists exactly while some node has an attribute. */
  lemma {:induction false} StoreExistsIff(s: State)
    requires Inv(s)
    ensures (exists st :: IsStore(s.fs.nodes, st)) <==> exists x :: 0 < x < ID_LIMIT && AttrsOf(s.fs.nodes, x) != []
  {
    var nodes := s.fs.nodes;
    if exists st :: IsStore(nodes, st) {
      var st: Id :| IsStore(nodes, st);
      var n :| n in nodes[st].entries;
      var y := nodes[st].entries[n];
      assert Named(nodes, st, n, y) && IsBlobName(n);
      var id :| 0 < id < ID_LIMIT && n == FileName(id);
      BlobIsGood(s, id);
      assert AttrsOf(nodes, id) != [];
    }
    if x: Id :| 0 < x < ID_LIMIT && AttrsOf(nodes, x) != [] {
      BlobIsGood(s, x);
      assert IsStore(nodes, nodes[ROOT].entries[STORE_DIR]);
    }
  }

  /** Every file in the store is the non-empty blob of one node id. */
  lemma {:induction false} NoEmptyBlob(s: State, st: Id, n: Bytes, y: Id)
    requires Inv(s) && IsStore(s.fs.nodes, st) && Named(s.fs.nodes, st, n, y)
    ensures IsFile(s.fs.nodes, y) && s.fs.nodes[y].data != []
    ensures exists id :: 0 < id < ID_LIMIT && n == FileName(id) && Blob(s.fs.nodes, id) == s.fs.nodes[y].data
  {
    assert IsBlobName(n);
    var id :| 0 < id < ID_LIMIT && n == FileName(id);
    assert Blob(s.fs.nodes, id) == s.fs.nodes[y].data;
  }
}
