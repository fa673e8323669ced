/**
 Subtree confinement. A client holds some handles, all derived from one handle on directory `d` with
 rights `r`; everyone else holds the others. Whatever the two sides do, in any interleaving that removes
 no directory a live handle names, the client's rights never exceed `r`, its directory handles name `d`
 or directories below it, its requests add and remove names only there, and change only the bytes and
 attributes of nodes its own handles name or names inside `d` led to.
 */
module Confinement {
  import opened Basics
  import opened Engine
  import opened Namespace
  import opened Store
  import opened Visible
  import opened Rights
  import opened Verbs
  import opened ServerInvariant
  import opened ServerSteps
  import opened TreeShape
  import opened ServerRuns

  datatype Act = Client(req: Request) | Other(req: Request)

  function HandlesOf(req: Request): set<nat> {
    if req.Rename? then {req.h, req.dstH} else {req.h}
  }

  /** The client's handles after a step: its own mints join, its own closes leave. */
  function Mine(s: State, mine: set<nat>, act: Act): set<nat> {
    match act
    case Other(_) => mine
    case Client(req) =>
      var reply := Step(s, req).1;
      if reply.Handle? then mine + {reply.h}
      else if req.Close? && reply.Done? then mine - {req.h}
      else mine
  }

  /** Each side uses only its own handles. */
  ghost predicate Allowed(s: State, mine: set<nat>, act: Act) {
    && Permitted(s, act.req)
    && (act.Client? ==> HandlesOf(act.req) <= mine)
    && (act.Other? ==> HandlesOf(act.req) !! mine)
  }

  ghost predicate RunAllowed(s: State, mine: set<nat>, run: seq<Act>)
    decreases run
  {
    run == [] || (Allowed(s, mine, run[0]) && RunAllowed(Next(s, run[0].req), Mine(s, mine, run[0]), run[1..]))
  }

  /** Handle `k` is live, within rights `r`, and a directory handle lies inside `d`. */
  ghost predicate Within(s: State, k: nat, d: Id, r: Mask) {
    && EntryAt(s, k).Ok?
    && EntryAt(s, k).value.rights <= r
    && (EntryAt(s, k).value.DirEntry? ==> Inside(s.fs.nodes, d, EntryAt(s, k).value.node))
  }

  ghost predicate Confined(s: State, mine: set<nat>, d: Id, r: Mask) {
    forall k :: k in mine ==> Within(s, k, d, r)
  }

  /** The names that differ between the two states are all in directories inside `d`. */
  ghost predicate NamesInside(nodes: map<Id, Node>, nodes': map<Id, Node>, d: Id) {
    forall y :: !Hidden(nodes, y) && !Hidden(nodes', y) && VisibleEntries(nodes', y) != VisibleEntries(nodes, y) ==>
      Inside(nodes, d, y)
  }

  /** One of the client's handles with that right names `x`. */
  ghost predicate Reaches(s: State, mine: set<nat>, right: nat, x: Id) {
    exists k :: k in mine && EntryAt(s, k).Ok? && EntryAt(s, k).value.node == x && right in EntryAt(s, k).value.rights
  }

  /** `x` has a name in a directory inside `d`. */
  ghost predicate NamedInside(nodes: map<Id, Node>, d: Id, x: Id) {
    exists p :: Inside(nodes, d, p) && KidOf(nodes, p, x)
  }

  /** The files whose bytes differ are all named by the client's own handles, with the right to write. */
  ghost predicate BytesOwn(s: State, s': State, mine: set<nat>) {
    forall x :: IsFile(s.fs.nodes, x) && !Hidden(s.fs.nodes, x) && IsFile(s'.fs.nodes, x) && s'.fs.nodes[x].data != s.fs.nodes[x].data ==>
      Reaches(s, mine, WRITE, x)
  }

  /** The nodes whose attributes differ are all named by the client's own handles, or lost a name inside `d`. */
  ghost predicate AttrsOwn(s: State, s': State, mine: set<nat>, d: Id) {
    forall x :: 0 < x < ID_LIMIT && AttrsOf(s'.fs.nodes, x) != AttrsOf(s.fs.nodes, x) ==>
      Reaches(s, mine, WRITE, x) || NamedInside(s.fs.nodes, d, x)
  }

  /** What one request of the client may do: names inside `d`, bytes and attributes its handles reach, handles on entries inside `d`. */
  ghost predicate ActsInside(s: State, mine: set<nat>, d: Id, req: Request) {
    var (s', reply) := Step(s, req);
    && NamesInside(s.fs.nodes, s'.fs.nodes, d)
    && BytesOwn(s, s', mine)
    && AttrsOwn(s, s', mine, d)
    && (reply.Handle? ==> EntryAt(s', reply.h).Ok? && NamedInside(s'.fs.nodes, d, EntryAt(s', reply.h).value.node))
  }

  /** Confined now, and after every step of the run; and every client step acts only inside `d`. */
  ghost predicate StaysConfined(s: State, mine: set<nat>, d: Id, r: Mask, run: seq<Act>)
    decreases run
  {
    && Confined(s, mine, d, r)
    && (run != [] ==>
          && (run[0].Client? ==> ActsInside(s, mine, d, run[0].req))
          && StaysConfined(Next(s, run[0].req), Mine(s, mine, run[0]), d, r, run[1..]))
  }

  // --- a chain of directories survives every step ---

  /** A directory with something visible in it is not removed. */
  lemma {:induction false} ParentStays(s: State, req: Request, p: Id, x: Id)
    requires Inv(s) && Permitted(s, req)
    requires KidOf(s.fs.nodes, p, x) && !Hidden(s.fs.nodes, x)
    ensures p in Next(s, req).fs.nodes
  {
    var nodes, nodes' := s.fs.nodes, Next(s, req).fs.nodes;
    StepEffect(s, req);
    var n :| Named(nodes, p, n, x);
    ParentIsVisible(nodes, p, n, x);
    assert n in VisibleEntries(nodes, p);
    if p !in nodes' {
      AbsentIsVisible(nodes', p);
      GoneWasEmpty(nodes, nodes', Touched(s, req), Tagged(s, req), p);
    }
  }

  lemma {:induction false} GoneWasEmpty(nodes: map<Id, Node>, nodes': map<Id, Node>, touched: set<Id>, lost: set<Id>, p: Id)
    requires Effect(nodes, nodes', touched, lost) && p in nodes && p !in nodes' && !Hidden(nodes, p) && !Hidden(nodes', p)
    ensures VisibleEntries(nodes, p) == map[]
  {
    assert VisibleEntries(nodes', p) == VisibleEntries(nodes, p);
  }

  lemma {:induction false} AbsentIsVisible(nodes: map<Id, Node>, p: Id)
    requires Tree(nodes) && p !in nodes
    ensures !Hidden(nodes, p)
  {
  }

  /** A live visible directory keeps its parent, which is one too. */
  lemma {:induction false} LinkKept(s: State, req: Request, p: Id, x: Id)
    requires Inv(s) && Permitted(s, req) && KidOf(s.fs.nodes, p, x)
    requires IsDir(s.fs.nodes, x) && !Hidden(s.fs.nodes, x) && x in Next(s, req).fs.nodes
    ensures IsDir(s.fs.nodes, p) && !Hidden(s.fs.nodes, p) && p in Next(s, req).fs.nodes && KidOf(Next(s, req).fs.nodes, p, x)
  {
    ParentStays(s, req, p, x);
    StepEffect(s, req);
    var n :| Named(s.fs.nodes, p, n, x);
    ParentIsVisible(s.fs.nodes, p, n, x);
  }

  /** A chain to a live visible directory stays a chain. */
  lemma {:induction false} ChainKept(s: State, req: Request, path: seq<Id>)
    requires Inv(s) && Permitted(s, req) && IsChain(s.fs.nodes, path)
    requires IsDir(s.fs.nodes, path[|path| - 1]) && !Hidden(s.fs.nodes, path[|path| - 1])
    requires path[|path| - 1] in Next(s, req).fs.nodes
    ensures IsChain(Next(s, req).fs.nodes, path)
    decreases |path|
  {
    if |path| > 1 {
      LastHasParent(s.fs.nodes, path);
      LinkKept(s, req, path[|path| - 2], path[|path| - 1]);
      ChainPrefix(s.fs.nodes, path);
      ChainKept(s, req, path[..|path| - 1]);
      ChainExtended(Next(s, req).fs.nodes, path);
    }
  }

  lemma {:induction false} ChainExtended(nodes: map<Id, Node>, path: seq<Id>)
    requires |path| > 1 && IsChain(nodes, path[..|path| - 1]) && KidOf(nodes, path[|path| - 2], path[|path| - 1])
    ensures IsChain(nodes, path)
  {
    var front := path[..|path| - 1];
    forall i | 0 <= i < |path| - 1 ensures KidOf(nodes, path[i], path[i + 1]) {
      if i < |path| - 2 {
        assert KidOf(nodes, front[i], front[i + 1]);
      }
    }
  }

  /** A directory that a handle names keeps its place below `d`. */
  lemma {:induction false} InsideKept(s: State, req: Request, d: Id, x: Id)
    requires Inv(s) && Permitted(s, req) && Inside(s.fs.nodes, d, x)
    requires IsDir(s.fs.nodes, x) && !Hidden(s.fs.nodes, x) && x in Next(s, req).fs.nodes
    ensures Inside(Next(s, req).fs.nodes, d, x)
  {
    var path :| ChainTo(s.fs.nodes, d, path, x);
    ChainKept(s, req, path);
    assert ChainTo(Next(s, req).fs.nodes, d, path, x);
  }

  // --- one step ---

  /** A handle that no close takes away stays within. */
  lemma {:induction false} WithinKept(s: State, req: Request, k: nat, d: Id, r: Mask)
    requires Inv(s) && Permitted(s, req) && Within(s, k, d, r) && req != Close(k)
    ensures Within(Next(s, req), k, d, r)
  {
    SlotKept(s, req, k);
    StepKeepsInvIff(s, req);
    var e := EntryAt(s, k).value;
    assert EntryOk(s.fs.nodes, e) && EntryOk(Next(s, req).fs.nodes, e);
    if e.DirEntry? {
      InsideKept(s, req, d, e.node);
    }
  }

  /** What a minting verb computes: no more rights than the handle it was asked through, and an entry of that handle's directory. */
  lemma {:induction false} DerivedFrom(s: State, h: nat, name: Bytes, minted: Result<(Fs, Entry)>, requested: Mask, hint: Id)
    requires || minted == OpenFileTx(s, h, name) || minted == OpenDirTx(s, h, name, requested)
             || minted == MakeDirTx(s, h, name, requested, hint) || minted == CreateFileTx(s, h, name, hint)
    requires minted.Ok?
    ensures DirAt(s, h).Ok?
    ensures minted.value.1.rights <= DirAt(s, h).value.rights
    ensures Named(minted.value.0.nodes, DirAt(s, h).value.node, name, minted.value.1.node)
  {
  }

  lemma {:induction false} MintedEntry(s: State, minted: Result<(Fs, Entry)>)
    requires minted.Ok?
    ensures var (s', reply) := Mint(s, minted);
            reply == Handle(FirstFree(s.handles)) && EntryAt(s', reply.h) == Ok(minted.value.1) && s'.fs == minted.value.0
  {
  }

  lemma {:induction false} MintedFrom(s: State, req: Request)
    requires Step(s, req).1.Handle?
    ensures DirAt(s, req.h).Ok?
    ensures var k, p, s' := Step(s, req).1.h, DirAt(s, req.h).value, Next(s, req);
            && EntryAt(s', k).Ok?
            && EntryAt(s', k).value.rights <= p.rights
            && KidOf(s'.fs.nodes, p.node, EntryAt(s', k).value.node)
  {
    match req
    case OpenFile(h, name) =>
      DerivedFrom(s, h, name, OpenFileTx(s, h, name), {}, 0);
      MintedEntry(s, OpenFileTx(s, h, name));
    case OpenDir(h, name, requested) =>
      DerivedFrom(s, h, name, OpenDirTx(s, h, name, requested), requested, 0);
      MintedEntry(s, OpenDirTx(s, h, name, requested));
    case MakeDir(h, name, requested, hint) =>
      DerivedFrom(s, h, name, MakeDirTx(s, h, name, requested, hint), requested, hint);
      MintedEntry(s, MakeDirTx(s, h, name, requested, hint));
    case CreateFile(h, name, hint) =>
      DerivedFrom(s, h, name, CreateFileTx(s, h, name, hint), {}, hint);
      MintedEntry(s, CreateFileTx(s, h, name, hint));
  }

  lemma {:induction false} MintWithin(s: State, req: Request, d: Id, r: Mask)
    requires Inv(s) && Permitted(s, req) && Step(s, req).1.Handle? && Within(s, req.h, d, r)
    ensures Within(Next(s, req), Step(s, req).1.h, d, r)
  {
    MintedFrom(s, req);
    WithinKept(s, req, req.h, d, r);
    SlotKept(s, req, req.h);
    InsideKid(Next(s, req).fs.nodes, d, DirAt(s, req.h).value.node, EntryAt(Next(s, req), Step(s, req).1.h).value.node);
  }

  lemma {:induction false} ConfinedStep(s: State, mine: set<nat>, d: Id, r: Mask, act: Act)
    requires Inv(s) && Confined(s, mine, d, r) && Allowed(s, mine, act)
    ensures Confined(Next(s, act.req), Mine(s, mine, act), d, r)
  {
    var req, s' := act.req, Next(s, act.req);
    forall k | k in Mine(s, mine, act) ensures Within(s', k, d, r) {
      if act.Client? && Step(s, req).1.Handle? && k == Step(s, req).1.h {
        MintWithin(s, req, d, r);
      } else if req == Close(k) && Step(s, req).1.Fail? {
        assert Within(s, k, d, r);
        FailedCloseKeeps(s, k);
      } else {
        WithinKept(s, req, k, d, r);
      }
    }
  }

  /** A close of a live slot fails only for slot 0, and then changes nothing. */
  lemma {:induction false} FailedCloseKeeps(s: State, k: nat)
    requires Inv(s) && EntryAt(s, k).Ok? && CloseStep(s, k).1.Fail?
    ensures CloseStep(s, k).0 == s
  {
    if k != 0 && EntryAt(s, k).value.FileEntry? {
      CloseCounts(s, k);
    }
  }

  /** A client's request changes names only in a directory one of its own handles names. */
  lemma {:induction false} ClientNamesInside(s: State, mine: set<nat>, d: Id, r: Mask, req: Request)
    requires Inv(s) && Confined(s, mine, d, r) && Allowed(s, mine, Client(req))
    ensures NamesInside(s.fs.nodes, Next(s, req).fs.nodes, d)
  {
    var nodes, nodes' := s.fs.nodes, Next(s, req).fs.nodes;
    StepEffect(s, req);
    forall y | !Hidden(nodes, y) && !Hidden(nodes', y) && VisibleEntries(nodes', y) != VisibleEntries(nodes, y)
      ensures Inside(nodes, d, y)
    {
      assert y in Touched(s, req);
      var g := TouchingHandle(s, req, y);
      assert Within(s, g, d, r) && EntryOk(nodes, EntryAt(s, g).value) && y in nodes';
    }
  }

  /** Whatever a request touches, one of its handles names. */
  lemma {:induction false} TouchingHandle(s: State, req: Request, y: Id) returns (g: nat)
    requires y in Touched(s, req)
    ensures g in HandlesOf(req) && EntryAt(s, g).Ok? && EntryAt(s, g).value.node == y
  {
    g := if req.Rename? && NodeOf(s, req.h) != {y} then req.dstH else req.h;
  }

  lemma {:induction false} ClientBytesOwn(s: State, mine: set<nat>, req: Request)
    requires Inv(s) && Allowed(s, mine, Client(req))
    ensures BytesOwn(s, Next(s, req), mine)
  {
    var s' := Next(s, req);
    forall x | IsFile(s.fs.nodes, x) && !Hidden(s.fs.nodes, x) && IsFile(s'.fs.nodes, x) && s'.fs.nodes[x].data != s.fs.nodes[x].data
      ensures Reaches(s, mine, WRITE, x)
    {
      StepKeepsData(s, req, x);
      assert req.h in mine && EntryAt(s, req.h).Ok?;
    }
  }

  lemma {:induction false} ClientAttrsOwn(s: State, mine: set<nat>, d: Id, r: Mask, req: Request)
    requires Inv(s) && Confined(s, mine, d, r) && Allowed(s, mine, Client(req))
    ensures AttrsOwn(s, Next(s, req), mine, d)
  {
    var s' := Next(s, req);
    StepEffect(s, req);
    forall x | 0 < x < ID_LIMIT && AttrsOf(s'.fs.nodes, x) != AttrsOf(s.fs.nodes, x)
      ensures Reaches(s, mine, WRITE, x) || NamedInside(s.fs.nodes, d, x)
    {
      assert x in Tagged(s, req);
      TaggedReached(s, mine, d, r, req, x);
    }
  }

  lemma {:induction false} TaggedReached(s: State, mine: set<nat>, d: Id, r: Mask, req: Request, x: Id)
    requires Inv(s) && Confined(s, mine, d, r) && HandlesOf(req) <= mine && x in Tagged(s, req) && Next(s, req) != s
    ensures Reaches(s, mine, WRITE, x) || NamedInside(s.fs.nodes, d, x)
  {
    if req.SetXattr? || req.RemoveXattr? {
      assert req.h in mine && EntryAt(s, req.h).value.node == x && WRITE in EntryAt(s, req.h).value.rights;
    } else {
      var g, name := if req.Rename? then req.dstH else req.h, if req.Rename? then req.dstName else req.name;
      var p := DirAt(s, g).value.node;
      assert Within(s, g, d, r) && Named(s.fs.nodes, p, name, x);
      assert Inside(s.fs.nodes, d, p) && KidOf(s.fs.nodes, p, x);
    }
  }

  lemma {:induction false} MintInside(s: State, req: Request, d: Id, r: Mask)
    requires Inv(s) && Permitted(s, req) && Step(s, req).1.Handle? && Within(s, req.h, d, r)
    ensures var (s', reply) := Step(s, req);
            EntryAt(s', reply.h).Ok? && NamedInside(s'.fs.nodes, d, EntryAt(s', reply.h).value.node)
  {
    MintedFrom(s, req);
    var p := DirAt(s, req.h).value;
    assert EntryOk(s.fs.nodes, p);
    InsideKept(s, req, d, p.node);
  }

  /** A client's request acts only inside `d`. */
  lemma {:induction false} ClientActsInside(s: State, mine: set<nat>, d: Id, r: Mask, req: Request)
    requires Inv(s) && Confined(s, mine, d, r) && Allowed(s, mine, Client(req))
    ensures ActsInside(s, mine, d, req)
  {
    ClientNamesInside(s, mine, d, r, req);
    ClientBytesOwn(s, mine, req);
    ClientAttrsOwn(s, mine, d, r, req);
    if Step(s, req).1.Handle? {
      assert Within(s, req.h, d, r);
      MintInside(s, req, d, r);
    }
  }

  /** Confinement over every run. */
  lemma {:induction false} Confinement(s: State, mine: set<nat>, d: Id, r: Mask, run: seq<Act>)
    requires Inv(s) && Confined(s, mine, d, r) && RunAllowed(s, mine, run)
    ensures StaysConfined(s, mine, d, r, run)
    decreases run
  {
    if run != [] {
      ConfinedStep(s, mine, d, r, run[0]);
      if run[0].Client? {
        ClientActsInside(s, mine, d, r, run[0].req);
      }
      StepKeepsInvIff(s, run[0].req);
      Confinement(Next(s, run[0].req), Mine(s, mine, run[0]), d, r, run[1..]);
    }
  }

  /** The case it is stated for: a client that starts with one directory handle and nothing else. */
  lemma {:induction false} HandleIsConfined(s: State, h: nat, run: seq<Act>)
    requires Inv(s) && DirAt(s, h).Ok? && RunAllowed(s, {h}, run)
    ensures StaysConfined(s, {h}, DirAt(s, h).value.node, DirAt(s, h).value.rights, run)
  {
    var e := DirAt(s, h).value;
    InsideSelf(s.fs.nodes, e.node);
    Confinement(s, {h}, e.node, e.rights, run);
  }
}
