/**
 Whole runs of the file server. A run is any finite sequence of requests; each request carries the
 node ids the engine hands out, so the runs below are all the runs there are.
 */
module ServerRuns {
  import opened Basics
  import opened Engine
  import opened Namespace
  import opened Store
  import opened Rights
  import opened Verbs
  import opened ServerInvariant
  import opened ServerSteps
  import opened TreeShape

  function Next(s: State, req: Request): State { Step(s, req).0 }

  function Run(s: State, reqs: seq<Request>): State
    decreases reqs
  {
    if reqs == [] then s else Run(Next(s, reqs[0]), reqs[1..])
  }

  /** No request of the run removes a directory that a handle live at that moment names. */
  ghost predicate RunPermitted(s: State, reqs: seq<Request>)
    decreases reqs
  {
    reqs == [] || (Permitted(s, reqs[0]) && RunPermitted(Next(s, reqs[0]), reqs[1..]))
  }

  /** The server as it is bound to a mounted image that nothing has open. */
  ghost predicate Initial(s: State) {
    && Opened(s)
    && FsOk(s.fs) && StoreOk(s.fs.nodes)
    && s.fs.usages == map[] && s.fs.release == {}
  }

  lemma {:induction false} InitialOk(s: State)
    requires Initial(s)
    ensures Inv(s)
  {
    RootIsVisible(s.fs.nodes);
    forall x ensures Usage(s.fs, x) == OpenCount(s.handles, x) {
      CountPositive(s.handles, x);
    }
  }

  lemma {:induction false} RunKeepsInv(s: State, reqs: seq<Request>)
    requires Inv(s) && RunPermitted(s, reqs)
    ensures Inv(Run(s, reqs))
    decreases reqs
  {
    if reqs != [] {
      StepKeepsInvIff(s, reqs[0]);
      RunKeepsInv(Next(s, reqs[0]), reqs[1..]);
    }
  }

  /** In every state a permitted run reaches, the namespace is a tree. */
  lemma {:induction false} TreeAtEveryState(s: State, reqs: seq<Request>, x: Id)
    requires Initial(s) && RunPermitted(s, reqs) && IsDir(Run(s, reqs).fs.nodes, x)
    ensures exists path :: OnlyChain(Run(s, reqs).fs.nodes, path, x)
    ensures x != ROOT ==> exists p, n :: OnlyName(Run(s, reqs).fs.nodes, p, n, x)
  {
    InitialOk(s);
    RunKeepsInv(s, reqs);
    NamespaceIsTree(Run(s, reqs).fs.nodes, x);
  }

  /** A refused request changes nothing. */
  lemma {:induction false} FailedIsSame(s: State, req: Request)
    requires Inv(s) && Step(s, req).1.Fail?
    ensures Next(s, req) == s
  {
    if req.Close? && EntryAt(s, req.h).Ok? && req.h != 0 && EntryAt(s, req.h).value.FileEntry? {
      CloseCounts(s, req.h);
      assert false;
    }
  }

  // --- unlink is not revoke ---

  /** A node is live exactly while something names it or a file handle holds it. */
  lemma {:induction false} LiveIff(s: State, x: Id)
    requires Inv(s)
    ensures x in s.fs.nodes <==> x == ROOT || HasName(s.fs.nodes, x) || OpenCount(s.handles, x) > 0
  {
    assert Usage(s.fs, x) == OpenCount(s.handles, x);
    if HasName(s.fs.nodes, x) {
      var p, n :| Named(s.fs.nodes, p, n, x);
    }
  }

  /** A slot changes only by its own close. */
  lemma {:induction false} SlotKept(s: State, req: Request, h: nat)
    requires h < |s.handles| && s.handles[h].Some? && req != Close(h)
    ensures h < |Next(s, req).handles| && Next(s, req).handles[h] == s.handles[h]
  {
  }

  /** What one request makes of the bytes of file `x`: an accepted write or truncation of `x` changes them, nothing else does. */
  function Edited(s: State, req: Request, x: Id, data: Bytes): Bytes {
    match req
    case Write(h, offset, bytes) => if FileAt(s, h, {WRITE}, EROFS) == Ok(x) then Overlaid(data, offset, bytes) else data
    case Truncate(h, size) => if FileAt(s, h, {WRITE}, EROFS) == Ok(x) then Resized(data, size) else data
    case _ => data
  }

  /** The bytes of file `x` after a run: the accepted writes and truncations of `x`, in order. */
  function Contents(s: State, reqs: seq<Request>, x: Id, data: Bytes): Bytes
    decreases reqs
  {
    if reqs == [] then data else Contents(Next(s, reqs[0]), reqs[1..], x, Edited(s, reqs[0], x, data))
  }

  lemma {:induction false} StepKeepsData(s: State, req: Request, x: Id)
    requires Inv(s) && Permitted(s, req) && IsFile(s.fs.nodes, x) && !Hidden(s.fs.nodes, x)
    requires x in Next(s, req).fs.nodes
    ensures IsFile(Next(s, req).fs.nodes, x) && !Hidden(Next(s, req).fs.nodes, x)
    ensures Next(s, req).fs.nodes[x].data == Edited(s, req, x, s.fs.nodes[x].data)
  {
    StepEffect(s, req);
    if x in Touched(s, req) {
      TouchedFile(s, req, x);
    }
  }

  /** Through a file handle nothing can be created, removed or renamed. */
  lemma {:induction false} FileHandleNamesNothing(s: State, req: Request)
    requires req.MakeDir? || req.CreateFile? || req.Unlink? || req.Rmdir? || req.Rename?
    requires || (EntryAt(s, req.h).Ok? && EntryAt(s, req.h).value.FileEntry?)
             || (req.Rename? && EntryAt(s, req.dstH).Ok? && EntryAt(s, req.dstH).value.FileEntry?)
    ensures Next(s, req) == s
  {
  }

  /** A request that touches a file is a write or a truncation of it, or does nothing. */
  lemma {:induction false} TouchedFile(s: State, req: Request, x: Id)
    requires Inv(s) && IsFile(s.fs.nodes, x) && x in Touched(s, req) && IsFile(Next(s, req).fs.nodes, x)
    ensures Next(s, req).fs.nodes[x].data == Edited(s, req, x, s.fs.nodes[x].data)
  {
    var g := if req.Rename? && NodeOf(s, req.h) != {x} then req.dstH else req.h;
    assert EntryOk(s.fs.nodes, EntryAt(s, g).value);
    if !(req.Write? || req.Truncate?) {
      FileHandleNamesNothing(s, req);
    }
  }

  /**
   A file handle is not revoked by anything but its own close. Through every unlink, rename-over and
   slot reuse of a permitted run it names the same live file, and that file's bytes are the accepted
   writes and truncations of it, in order.
   */
  lemma {:induction false} UnlinkIsNotRevoke(s: State, reqs: seq<Request>, h: nat)
    requires Inv(s) && RunPermitted(s, reqs) && Close(h) !in reqs
    requires EntryAt(s, h).Ok? && EntryAt(s, h).value.FileEntry?
    ensures EntryAt(Run(s, reqs), h) == EntryAt(s, h)
    ensures var x, nodes := EntryAt(s, h).value.node, Run(s, reqs).fs.nodes;
            IsFile(s.fs.nodes, x) && IsFile(nodes, x) && nodes[x].data == Contents(s, reqs, x, s.fs.nodes[x].data)
    decreases reqs
  {
    var x := EntryAt(s, h).value.node;
    assert EntryOk(s.fs.nodes, s.handles[h].value);
    if reqs != [] {
      var s' := Next(s, reqs[0]);
      StepKeepsInvIff(s, reqs[0]);
      SlotKept(s, reqs[0], h);
      assert EntryOk(s'.fs.nodes, s'.handles[h].value);
      StepKeepsData(s, reqs[0], x);
      UnlinkIsNotRevoke(s', reqs[1..], h);
    }
  }

  /** So a read through the handle answers those bytes. */
  lemma {:induction false} ReadsCurrentBytes(s: State, reqs: seq<Request>, h: nat, offset: nat, len: nat)
    requires Inv(s) && RunPermitted(s, reqs) && Close(h) !in reqs
    requires EntryAt(s, h).Ok? && EntryAt(s, h).value.FileEntry? && READ in EntryAt(s, h).value.rights
    ensures EntryAt(s, h).value.node in s.fs.nodes && s.fs.nodes[EntryAt(s, h).value.node].File?
    ensures var x := EntryAt(s, h).value.node;
            var data := Contents(s, reqs, x, s.fs.nodes[x].data);
            ReadTx(Run(s, reqs), h, offset, len) ==
              Ok(if offset >= |data| then [] else if offset + len <= |data| then data[offset..offset + len] else data[offset..])
  {
    UnlinkIsNotRevoke(s, reqs, h);
  }
}
