/**
 One NVMe queue pair as a two-party step system: the driver's submit, poll and give-up, the
 controller's fetch and post, in any order. Commands are told apart by a serial number that never
 repeats; the command id on the wire is that number modulo 65536. The rules for the controller are
 those of sections 3.1 and 4.6 of the NVM Express 1.4 base specification.
 */
module Nvme {

  /** Entries per ring. */
  const ENTRIES: nat := 16

  const CIDS: nat := 65536

  /** A completion queue entry; `serial` stands for the command it answers. */
  datatype Completion = Completion(serial: nat, sqHead: nat, phase: bool, status: nat) {
    function Cid(): nat { serial % CIDS }
  }

  /** What a zeroed ring holds. */
  const BLANK := Completion(0, 0, false, 0)

  datatype Queue = Queue(
    // the driver: its two ring cursors, the phase it expects, how many commands it has issued, and whether it polls
    sqTail: nat, sqHead: nat, cqHead: nat, cqPhase: bool, issued: nat, waiting: bool,
    // shared: the two rings and the two doorbells
    sq: seq<nat>, cq: seq<Completion>, tailBell: nat, headBell: nat,
    // the controller: what it fetches next, what it has fetched and not answered, where it posts and in which phase
    fetchHead: nat, pending: seq<nat>, postTail: nat, postPhase: bool)

  datatype Step =
    | Submit
    | Poll
    | GiveUp
    | Fetch
    | Post(which: nat, status: nat)

  /** A bounded cursor, one past its ring at most. */
  function Wrap(i: nat): nat {
    if i >= ENTRIES then i - ENTRIES else i
  }

  /** How far `to` is ahead of `from` on the ring. */
  function Ahead(from: nat, to: nat): nat
    requires from < ENTRIES && to < ENTRIES
  {
    if to >= from then to - from else to + ENTRIES - from
  }

  function Fresh(): Queue {
    Queue(0, 0, 0, true, 0, false, seq(ENTRIES, _ => 0), seq(ENTRIES, _ => BLANK), 0, 0, 0, [], 0, true)
  }

  predicate Shaped(q: Queue) {
    && |q.sq| == ENTRIES && |q.cq| == ENTRIES
    && q.sqTail < ENTRIES && q.sqHead < ENTRIES && q.cqHead < ENTRIES
    && q.fetchHead < ENTRIES && q.postTail < ENTRIES
    && q.tailBell == q.sqTail && q.headBell == q.cqHead
  }

  // --- the driver ---

  /** The entry at the head is this lap's. */
  predicate Owned(q: Queue)
    requires Shaped(q)
  {
    q.cq[q.cqHead].phase == q.cqPhase
  }

  /** When each party may take a step. The controller posts only into a ring with room. */
  predicate Enabled(q: Queue, s: Step)
    requires Shaped(q)
  {
    match s
    case Submit => !q.waiting
    case Poll => q.waiting
    case GiveUp => q.waiting
    case Fetch => q.fetchHead != q.tailBell
    case Post(which, _) => which < |q.pending| && Wrap(q.postTail + 1) != q.headBell
  }

  /** What the driver asserts when it takes the step: a ring with room, a head in range, the id it waits for. */
  predicate Asserts(q: Queue, s: Step)
    requires Shaped(q)
  {
    match s
    case Submit => Wrap(q.sqTail + 1) != q.sqHead
    case Poll => Owned(q) ==> q.cq[q.cqHead].sqHead < ENTRIES && q.cq[q.cqHead].Cid() == q.issued % CIDS
    case _ => true
  }

  function Next(q: Queue, s: Step): Queue
    requires Shaped(q) && Enabled(q, s)
  {
    match s
    case Submit =>
      var tail := Wrap(q.sqTail + 1);
      q.(sq := q.sq[q.sqTail := q.issued + 1], sqTail := tail, tailBell := tail, issued := q.issued + 1, waiting := true)
    case Poll =>
      if !Owned(q) then q
      else
        var head := Wrap(q.cqHead + 1);
        q.(cqHead := head, headBell := head, cqPhase := if head == 0 then !q.cqPhase else q.cqPhase,
           sqHead := q.cq[q.cqHead].sqHead, waiting := false)
    case GiveUp => q.(waiting := false)
    case Fetch => q.(pending := q.pending + [q.sq[q.fetchHead]], fetchHead := Wrap(q.fetchHead + 1))
    case Post(which, status) =>
      var entry := Completion(q.pending[which], q.fetchHead, q.postPhase, status);
      var tail := Wrap(q.postTail + 1);
      q.(cq := q.cq[q.postTail := entry], pending := q.pending[..which] + q.pending[which + 1..],
         postTail := tail, postPhase := if tail == 0 then !q.postPhase else q.postPhase)
  }

  // --- what the rings hold ---

  /** Commands the driver has published and the controller has not fetched. */
  function Unfetched(q: Queue): seq<nat>
    requires Shaped(q)
  {
    seq(Ahead(q.fetchHead, q.sqTail), i requires 0 <= i < Ahead(q.fetchHead, q.sqTail) => q.sq[Wrap(q.fetchHead + i)])
  }

  /** Answers the controller has posted and the driver has not consumed, oldest first. */
  function Posted(q: Queue): seq<Completion>
    requires Shaped(q)
  {
    seq(Ahead(q.cqHead, q.postTail), i requires 0 <= i < Ahead(q.cqHead, q.postTail) => q.cq[Wrap(q.cqHead + i)])
  }

  /** The phase the driver will expect `i` entries from its head. */
  function PhaseAt(q: Queue, i: nat): bool {
    if q.cqHead + i < ENTRIES then q.cqPhase else !q.cqPhase
  }

  function EntryAt(q: Queue, i: nat): Completion
    requires Shaped(q) && i < ENTRIES
  {
    q.cq[Wrap(q.cqHead + i)]
  }

  /** The phase discipline: exactly the posted entries carry the phase their lap expects. */
  ghost predicate PhasesOk(q: Queue) {
    && Shaped(q)
    && q.postPhase == PhaseAt(q, Ahead(q.cqHead, q.postTail))
    && forall i :: 0 <= i < ENTRIES ==> (EntryAt(q, i).phase == PhaseAt(q, i) <==> i < Ahead(q.cqHead, q.postTail))
  }

  lemma {:induction false} FreshOk()
    ensures PhasesOk(Fresh()) && Unfetched(Fresh()) == [] && Posted(Fresh()) == []
  {
  }

  /** A post takes the first place that is not yet this lap's. */
  lemma {:induction false} PostKeepsPhases(q: Queue, which: nat, status: nat)
    requires PhasesOk(q) && Enabled(q, Post(which, status))
    ensures PhasesOk(Next(q, Post(which, status)))
  {
    var q', n := Next(q, Post(which, status)), Ahead(q.cqHead, q.postTail);
    assert Ahead(q.cqHead, q'.postTail) == n + 1;
    forall i | 0 <= i < ENTRIES ensures EntryAt(q', i).phase == PhaseAt(q', i) <==> i < n + 1 {
      assert EntryAt(q, i).phase == PhaseAt(q, i) <==> i < n;
      assert Wrap(q.cqHead + i) == q.postTail <==> i == n;
    }
  }

  /** Consuming the head entry puts it one lap away. */
  lemma {:induction false} ConsumeKeepsPhases(q: Queue)
    requires PhasesOk(q) && q.waiting && Owned(q) && q.cq[q.cqHead].sqHead < ENTRIES
    ensures PhasesOk(Next(q, Poll))
  {
    var q', n := Next(q, Poll), Ahead(q.cqHead, q.postTail);
    assert EntryAt(q, 0).phase == PhaseAt(q, 0) <==> 0 < n;
    assert Ahead(q'.cqHead, q.postTail) == n - 1;
    forall i | 0 <= i < ENTRIES ensures EntryAt(q', i).phase == PhaseAt(q', i) <==> i < n - 1 {
      if i + 1 < ENTRIES {
        assert EntryAt(q', i) == EntryAt(q, i + 1) && PhaseAt(q', i) == PhaseAt(q, i + 1);
      } else {
        assert EntryAt(q', i) == EntryAt(q, 0) && PhaseAt(q', i) != PhaseAt(q, 0);
      }
    }
  }

  /** Every step, of either party, timeouts included, keeps the discipline. */
  lemma {:induction false} PhasesKept(q: Queue, s: Step)
    requires PhasesOk(q) && Enabled(q, s)
    requires s.Poll? && Owned(q) ==> q.cq[q.cqHead].sqHead < ENTRIES
    ensures PhasesOk(Next(q, s))
  {
    var q' := Next(q, s);
    if s.Post? {
      PostKeepsPhases(q, s.which, s.status);
    } else if s.Poll? && Owned(q) {
      ConsumeKeepsPhases(q);
    } else {
      forall i | 0 <= i < ENTRIES ensures EntryAt(q', i).phase == PhaseAt(q', i) <==> i < Ahead(q'.cqHead, q'.postTail) {
        assert EntryAt(q, i).phase == PhaseAt(q, i) <==> i < Ahead(q.cqHead, q.postTail);
      }
    }
  }

  /** The driver accepts an entry exactly when an answer is posted, and it is the oldest one. Stale and blank entries are never accepted. */
  lemma {:induction false} AcceptsIff(q: Queue)
    requires PhasesOk(q)
    ensures Owned(q) <==> Posted(q) != []
    ensures Owned(q) ==> q.cq[q.cqHead] == Posted(q)[0]
  {
    assert EntryAt(q, 0).phase == PhaseAt(q, 0) <==> 0 < Ahead(q.cqHead, q.postTail);
  }

  // --- what each step does to the three queues ---

  lemma {:induction false} SubmitMoves(q: Queue)
    requires Shaped(q) && !q.waiting && Wrap(q.sqTail + 1) != q.fetchHead
    ensures Unfetched(Next(q, Submit)) == Unfetched(q) + [q.issued + 1]
    ensures Posted(Next(q, Submit)) == Posted(q)
  {
    var q', n := Next(q, Submit), Ahead(q.fetchHead, q.sqTail);
    assert Ahead(q.fetchHead, q'.sqTail) == n + 1;
    forall i | 0 <= i < n + 1 ensures Unfetched(q')[i] == (Unfetched(q) + [q.issued + 1])[i] {
      assert Wrap(q.fetchHead + i) == q.sqTail <==> i == n;
    }
  }

  lemma {:induction false} FetchMoves(q: Queue)
    requires Shaped(q) && Enabled(q, Fetch)
    ensures Unfetched(q) != [] && q.sq[q.fetchHead] == Unfetched(q)[0]
    ensures Unfetched(Next(q, Fetch)) == Unfetched(q)[1..] && Posted(Next(q, Fetch)) == Posted(q)
  {
    var q', n := Next(q, Fetch), Ahead(q.fetchHead, q.sqTail);
    assert Wrap(q.fetchHead + 0) == q.fetchHead;
    assert Ahead(q'.fetchHead, q.sqTail) == n - 1;
    forall i | 0 <= i < n - 1 ensures Unfetched(q')[i] == Unfetched(q)[i + 1] {
      assert Wrap(q'.fetchHead + i) == Wrap(q.fetchHead + (i + 1));
    }
  }

  lemma {:induction false} PostMoves(q: Queue, which: nat, status: nat)
    requires Shaped(q) && Enabled(q, Post(which, status))
    ensures Unfetched(Next(q, Post(which, status))) == Unfetched(q)
    ensures Posted(Next(q, Post(which, status))) == Posted(q) + [Completion(q.pending[which], q.fetchHead, q.postPhase, status)]
  {
    var q', n := Next(q, Post(which, status)), Ahead(q.cqHead, q.postTail);
    assert Ahead(q.cqHead, q'.postTail) == n + 1;
    forall i | 0 <= i < n + 1
      ensures Posted(q')[i] == (Posted(q) + [Completion(q.pending[which], q.fetchHead, q.postPhase, status)])[i]
    {
      assert Wrap(q.cqHead + i) == q.postTail <==> i == n;
    }
  }

  lemma {:induction false} PollMoves(q: Queue)
    requires PhasesOk(q) && q.waiting && Owned(q) && q.cq[q.cqHead].sqHead < ENTRIES
    ensures Posted(q) != [] && Posted(Next(q, Poll)) == Posted(q)[1..]
    ensures Unfetched(Next(q, Poll)) == Unfetched(q)
  {
    AcceptsIff(q);
    var q', n := Next(q, Poll), Ahead(q.cqHead, q.postTail);
    assert Ahead(q'.cqHead, q.postTail) == n - 1;
    forall i | 0 <= i < n - 1 ensures Posted(q')[i] == Posted(q)[i + 1] {
      assert Wrap(q'.cqHead + i) == Wrap(q.cqHead + (i + 1));
    }
  }

  // --- what is outstanding ---

  function Serials(cs: seq<Completion>): seq<nat> {
    seq(|cs|, i requires 0 <= i < |cs| => cs[i].serial)
  }

  /** Every command issued and not consumed, wherever it is. */
  function Outstanding(q: Queue): multiset<nat>
    requires Shaped(q)
  {
    multiset(Unfetched(q)) + multiset(q.pending) + multiset(Serials(Posted(q)))
  }

  lemma {:induction false} SerialsSnoc(cs: seq<Completion>, c: Completion)
    ensures Serials(cs + [c]) == Serials(cs) + [c.serial]
  {
  }

  lemma {:induction false} FetchKeepsOut(q: Queue)
    requires Shaped(q) && Enabled(q, Fetch)
    ensures Outstanding(Next(q, Fetch)) == Outstanding(q)
  {
    FetchMoves(q);
    assert Unfetched(q) == [Unfetched(q)[0]] + Unfetched(q)[1..];
  }

  lemma {:induction false} PostKeepsOut(q: Queue, which: nat, status: nat)
    requires Shaped(q) && Enabled(q, Post(which, status))
    ensures Outstanding(Next(q, Post(which, status))) == Outstanding(q)
  {
    PostMoves(q, which, status);
    SerialsSnoc(Posted(q), Completion(q.pending[which], q.fetchHead, q.postPhase, status));
    assert q.pending == q.pending[..which] + [q.pending[which]] + q.pending[which + 1..];
  }

  /** The controller moves commands along; it neither loses nor invents one. */
  lemma {:induction false} ControllerKeepsOut(q: Queue, s: Step)
    requires Shaped(q) && Enabled(q, s) && (s.Fetch? || s.Post?)
    ensures Outstanding(Next(q, s)) == Outstanding(q)
  {
    if s.Fetch? {
      FetchKeepsOut(q);
    } else {
      PostKeepsOut(q, s.which, s.status);
    }
  }

  lemma {:induction false} PostedIsOut(q: Queue)
    requires Shaped(q) && Posted(q) != []
    ensures Posted(q)[0].serial in Outstanding(q)
  {
    assert Serials(Posted(q))[0] == Posted(q)[0].serial;
  }

  // --- runs of the controller alone ---

  ghost predicate IsControllerRun(q: Queue, run: seq<Step>)
    requires Shaped(q)
    decreases run
  {
    run == [] ||
    (&& (run[0].Fetch? || run[0].Post?) && Enabled(q, run[0])
     && Shaped(Next(q, run[0])) && IsControllerRun(Next(q, run[0]), run[1..]))
  }

  function After(q: Queue, run: seq<Step>): Queue
    requires Shaped(q) && IsControllerRun(q, run)
    decreases run
  {
    if run == [] then q else After(Next(q, run[0]), run[1..])
  }

  lemma {:induction false} ControllerRunKeeps(q: Queue, run: seq<Step>)
    requires PhasesOk(q) && IsControllerRun(q, run)
    ensures PhasesOk(After(q, run)) && Outstanding(After(q, run)) == Outstanding(q) && After(q, run).issued == q.issued
    decreases run
  {
    if run != [] {
      PhasesKept(q, run[0]);
      ControllerKeepsOut(q, run[0]);
      ControllerRunKeeps(Next(q, run[0]), run[1..]);
    }
  }

  /** Whatever the controller does next, the answer the driver accepts first is the one it waits for. */
  ghost predicate Safe(q: Queue)
    requires Shaped(q)
  {
    forall run :: IsControllerRun(q, run) && Shaped(After(q, run)) && Owned(After(q, run)) ==>
      After(q, run).cq[After(q, run).cqHead].serial == q.issued
  }

  /** Serial numbers outstanding have been issued; the submission ring's head is one the controller has passed. */
  ghost predicate Orderly(q: Queue) {
    && PhasesOk(q)
    && (forall n :: n in Outstanding(q) ==> 0 < n <= q.issued)
    && Ahead(q.sqHead, q.fetchHead) <= Ahead(q.sqHead, q.sqTail)
  }

  /** From a state with something outstanding the controller can have its answer accepted next. */
  lemma {:induction false} WrongAnswer(q: Queue) returns (run: seq<Step>)
    requires PhasesOk(q) && q.waiting && (Posted(q) != [] ==> Posted(q)[0].serial != q.issued)
    requires Posted(q) == [] && q.pending != [] ==> q.pending[0] != q.issued
    requires Posted(q) == [] && q.pending == [] ==> Unfetched(q) != [] && Unfetched(q)[0] != q.issued
    ensures IsControllerRun(q, run) && Shaped(After(q, run)) && Owned(After(q, run))
    ensures After(q, run).cq[After(q, run).cqHead].serial != q.issued
  {
    if Posted(q) != [] {
      run := [];
      AcceptsIff(q);
    } else if q.pending != [] {
      run := PostFirst(q);
    } else {
      FetchEnabled(q);
      FetchMoves(q);
      PhasesKept(q, Fetch);
      var rest := PostFirst(Next(q, Fetch));
      run := [Fetch] + rest;
      assert run[1..] == rest;
    }
  }

  lemma {:induction false} FetchEnabled(q: Queue)
    requires Shaped(q) && Unfetched(q) != []
    ensures Enabled(q, Fetch)
  {
  }

  lemma {:induction false} PostFirst(q: Queue) returns (run: seq<Step>)
    requires PhasesOk(q) && Posted(q) == [] && q.pending != []
    ensures IsControllerRun(q, run) && Shaped(After(q, run)) && Owned(After(q, run))
    ensures After(q, run).cq[After(q, run).cqHead].serial == q.pending[0]
  {
    var s := Post(0, 0);
    assert q.postTail == q.cqHead;
    run := [s];
    PhasesKept(q, s);
    PostMoves(q, 0, 0);
    AcceptsIff(Next(q, s));
    assert run[1..] == [] && After(q, run) == Next(q, s);
  }

  /** A submission is safe, whatever the controller does, if and only if nothing is outstanding when it is made. */
  lemma {:induction false} SafeIff(q: Queue)
    requires Orderly(q) && !q.waiting && Asserts(q, Submit)
    ensures Shaped(Next(q, Submit)) && (Safe(Next(q, Submit)) <==> Outstanding(q) == multiset{})
  {
    var q' := Next(q, Submit);
    PhasesKept(q, Submit);
    SubmitMoves(q);
    if Outstanding(q) == multiset{} {
      assert Outstanding(q') == multiset{q'.issued};
      forall run | IsControllerRun(q', run) && Shaped(After(q', run)) && Owned(After(q', run))
        ensures After(q', run).cq[After(q', run).cqHead].serial == q'.issued
      {
        ControllerRunKeeps(q', run);
        AcceptsIff(After(q', run));
        PostedIsOut(After(q', run));
      }
    } else {
      OldestIsOut(q);
      var run := WrongAnswer(q');
    }
  }

  /** Each of the three queues holds only outstanding commands. */
  lemma {:induction false} OldestIsOut(q: Queue)
    requires Shaped(q)
    ensures Posted(q) != [] ==> Posted(q)[0].serial in Outstanding(q)
    ensures q.pending != [] ==> q.pending[0] in Outstanding(q)
    ensures Unfetched(q) != [] ==> Unfetched(q)[0] in Outstanding(q)
    ensures Posted(q) == [] && q.pending == [] && Unfetched(q) == [] ==> Outstanding(q) == multiset{}
  {
    if Posted(q) != [] {
      PostedIsOut(q);
    }
  }

  // --- a driver that never gives up ---

  /** One command at a time: while the driver polls, its command is the only one out; while it does not, both parties are level. */
  ghost predicate InStep(q: Queue) {
    && Orderly(q)
    && Outstanding(q) == (if q.waiting then multiset{q.issued} else multiset{})
    && Ahead(q.sqHead, q.sqTail) == (if q.waiting then 1 else 0)
    && forall i :: 0 <= i < |Posted(q)| ==> Posted(q)[i].sqHead == q.sqTail
  }

  lemma {:induction false} OnePlace(q: Queue)
    requires Shaped(q)
    ensures |Outstanding(q)| == |Unfetched(q)| + |q.pending| + |Posted(q)|
  {
    MultisetSize(Unfetched(q));
    MultisetSize(q.pending);
    MultisetSize(Serials(Posted(q)));
  }

  lemma {:induction false} MultisetSize(s: seq<nat>)
    ensures |multiset(s)| == |s|
  {
    if s != [] {
      MultisetSize(s[1..]);
      assert s == [s[0]] + s[1..];
      assert multiset(s) == multiset{s[0]} + multiset(s[1..]);
    }
  }

  lemma {:induction false} SubmitInStep(q: Queue)
    requires InStep(q) && !q.waiting
    ensures Asserts(q, Submit) && InStep(Next(q, Submit))
  {
    OnePlace(q);
    PhasesKept(q, Submit);
    SubmitMoves(q);
  }

  lemma {:induction false} FetchInStep(q: Queue)
    requires InStep(q) && Enabled(q, Fetch)
    ensures InStep(Next(q, Fetch))
  {
    PhasesKept(q, Fetch);
    FetchMoves(q);
    FetchKeepsOut(q);
  }

  lemma {:induction false} PostInStep(q: Queue, which: nat, status: nat)
    requires InStep(q) && Enabled(q, Post(which, status))
    ensures InStep(Next(q, Post(which, status)))
  {
    OnePlace(q);
    PhasesKept(q, Post(which, status));
    PostMoves(q, which, status);
    PostKeepsOut(q, which, status);
    assert |Unfetched(q)| == 0 && q.fetchHead == q.sqTail;
  }

  lemma {:induction false} PollInStep(q: Queue)
    requires InStep(q) && q.waiting
    ensures Asserts(q, Poll) && InStep(Next(q, Poll))
    ensures Owned(q) ==> q.cq[q.cqHead].serial == q.issued
  {
    if Owned(q) {
      AcceptsIff(q);
      PostedIsOut(q);
      OnePlace(q);
      PhasesKept(q, Poll);
      PollMoves(q);
      assert Unfetched(q) == [] && q.pending == [] && |Posted(q)| == 1;
      assert Serials([]) == [];
    }
  }

  lemma {:induction false} StepInStep(q: Queue, s: Step)
    requires InStep(q) && Enabled(q, s) && !s.GiveUp?
    ensures Asserts(q, s) && InStep(Next(q, s))
    ensures s.Poll? && Owned(q) ==> q.cq[q.cqHead].serial == q.issued
  {
    match s
    case Submit => SubmitInStep(q);
    case Poll => PollInStep(q);
    case Fetch => FetchInStep(q);
    case Post(which, status) => PostInStep(q, which, status);
  }

  ghost predicate IsRun(q: Queue, run: seq<Step>)
    requires Shaped(q)
    decreases run
  {
    run == [] || (Enabled(q, run[0]) && !run[0].GiveUp? && Shaped(Next(q, run[0])) && IsRun(Next(q, run[0]), run[1..]))
  }

  /** Every assertion of the driver holds along the run, and every answer it accepts is the one it waits for. */
  ghost predicate RunsClean(q: Queue, run: seq<Step>)
    requires Shaped(q) && IsRun(q, run)
    decreases run
  {
    run == [] ||
    (&& Asserts(q, run[0])
     && (run[0].Poll? && Owned(q) ==> q.cq[q.cqHead].serial == q.issued)
     && RunsClean(Next(q, run[0]), run[1..]))
  }

  /** Over unboundedly many commands and ring wraps, a driver that never gives up is never wrong and never panics. */
  lemma {:induction false} NeverWrong(q: Queue, run: seq<Step>)
    requires InStep(q) && IsRun(q, run)
    ensures RunsClean(q, run)
    decreases run
  {
    if run != [] {
      StepInStep(q, run[0]);
      NeverWrong(Next(q, run[0]), run[1..]);
    }
  }

  lemma {:induction false} FreshInStep()
    ensures InStep(Fresh())
  {
    FreshOk();
    assert Serials([]) == [];
  }

  /** Between commands every cursor of the one party is level with the other's. */
  lemma {:induction false} LevelWhenIdle(q: Queue)
    requires InStep(q) && !q.waiting
    ensures q.sqHead == q.sqTail == q.fetchHead && q.cqHead == q.postTail && q.cqPhase == q.postPhase && q.pending == []
  {
    OnePlace(q);
  }

  /** The controller can always bring the command in flight to an accepted answer. */
  lemma {:induction false} AnswerReachable(q: Queue) returns (run: seq<Step>)
    requires InStep(q) && q.waiting
    ensures IsControllerRun(q, run) && Shaped(After(q, run)) && Owned(After(q, run))
  {
    OnePlace(q);
    if Posted(q) != [] {
      run := [];
      AcceptsIff(q);
    } else if q.pending != [] {
      run := PostFirst(q);
    } else {
      FetchEnabled(q);
      FetchInStep(q);
      FetchMoves(q);
      var rest := PostFirst(Next(q, Fetch));
      run := [Fetch] + rest;
      assert run[1..] == rest;
    }
  }

  // --- and one that does ---

  /** Giving up leaves the command out. */
  lemma {:induction false} GiveUpLeavesIt(q: Queue)
    requires InStep(q) && q.waiting
    ensures Orderly(Next(q, GiveUp)) && Asserts(Next(q, GiveUp), Submit) && Outstanding(Next(q, GiveUp)) == multiset{q.issued}
  {
    var gaveUp := Next(q, GiveUp);
    PhasesKept(q, GiveUp);
    assert Unfetched(gaveUp) == Unfetched(q) && Posted(gaveUp) == Posted(q);
  }

  /** After giving up on a command that is still out, the very next submission is no longer safe. */
  lemma {:induction false} GiveUpIsUnsafe(q: Queue)
    requires InStep(q) && q.waiting
    ensures var gaveUp := Next(q, GiveUp);
            Orderly(gaveUp) && Asserts(gaveUp, Submit) && !gaveUp.waiting
            && Shaped(Next(gaveUp, Submit)) && !Safe(Next(gaveUp, Submit))
  {
    GiveUpLeavesIt(q);
    SafeIff(Next(q, GiveUp));
  }

  // --- the driver as it runs ---

  lemma {:induction false} ControllerRunInStep(q: Queue, run: seq<Step>)
    requires InStep(q) && IsControllerRun(q, run)
    ensures InStep(After(q, run)) && After(q, run).waiting == q.waiting && After(q, run).issued == q.issued
    decreases run
  {
    if run != [] {
      StepInStep(q, run[0]);
      ControllerRunInStep(Next(q, run[0]), run[1..]);
    }
  }

  datatype Outcome = Completed(serial: nat, status: nat) | ControllerFatal | CompletionTimeout

  // --- what the controller does while the driver polls ---

  /** The commands the controller answers over a run and the status it gives each, in order. */
  function Answers(q: Queue, run: seq<Step>): seq<(nat, nat)>
    requires Shaped(q) && IsControllerRun(q, run)
    decreases run
  {
    if run == [] then [] else Answered(q, run[0]) + Answers(Next(q, run[0]), run[1..])
  }

  function Pairs(cs: seq<Completion>): seq<(nat, nat)> {
    seq(|cs|, i requires 0 <= i < |cs| => (cs[i].serial, cs[i].status))
  }

  /** The entries posted and not consumed are these answers. */
  ghost predicate Tells(q: Queue, answers: seq<(nat, nat)>) {
    Shaped(q) && Pairs(Posted(q)) == answers
  }

  function Answered(q: Queue, s: Step): seq<(nat, nat)>
    requires Shaped(q) && Enabled(q, s)
  {
    if s.Post? then [(q.pending[s.which], s.status)] else []
  }

  lemma {:induction false} StepPosts(q: Queue, s: Step, before: seq<(nat, nat)>)
    requires Tells(q, before) && Enabled(q, s) && (s.Fetch? || s.Post?)
    ensures Tells(Next(q, s), before + Answered(q, s))
  {
    if s.Fetch? {
      FetchMoves(q);
    } else {
      PostMoves(q, s.which, s.status);
    }
  }

  lemma {:induction false} Regrouped(a: seq<(nat, nat)>, b: seq<(nat, nat)>, c: seq<(nat, nat)>)
    ensures a + b + c == a + (b + c)
  {
  }

  /** What is posted is what was answered. */
  lemma {:induction false} PostedAre(q: Queue, run: seq<Step>, before: seq<(nat, nat)>)
    requires Tells(q, before) && IsControllerRun(q, run)
    ensures Tells(After(q, run), before + Answers(q, run))
    decreases run
  {
    if run == [] {
      assert before + [] == before;
    } else {
      var q', answered := Next(q, run[0]), Answered(q, run[0]);
      StepPosts(q, run[0], before);
      PostedAre(q', run[1..], before + answered);
      Regrouped(before, answered, Answers(q', run[1..]));
    }
  }

  /** The queue after so many turns of the controller. */
  ghost function Turned(q: Queue, controller: Queue -> seq<Step>, turns: nat): Queue {
    if turns == 0 then q else OneTurn(Turned(q, controller, turns - 1), controller)
  }

  /** One turn: what the controller chooses to do, being something it may. */
  ghost function OneTurn(p: Queue, controller: Queue -> seq<Step>): Queue {
    if Shaped(p) && IsControllerRun(p, controller(p)) then After(p, controller(p)) else p
  }

  ghost function TurnAnswers(p: Queue, controller: Queue -> seq<Step>): seq<(nat, nat)> {
    if Shaped(p) && IsControllerRun(p, controller(p)) then Answers(p, controller(p)) else []
  }

  ghost function AnswersIn(q: Queue, controller: Queue -> seq<Step>, turns: nat): seq<(nat, nat)> {
    if turns == 0 then [] else AnswersIn(q, controller, turns - 1) + TurnAnswers(Turned(q, controller, turns - 1), controller)
  }

  /** The driver waits for `issued`, and what is posted is `answers`. */
  ghost predicate Awaits(p: Queue, issued: nat, answers: seq<(nat, nat)>) {
    InStep(p) && p.waiting && p.issued == issued && Pairs(Posted(p)) == answers
  }

  lemma {:induction false} TurnKeeps(p: Queue, controller: Queue -> seq<Step>, issued: nat, answers: seq<(nat, nat)>)
    requires Awaits(p, issued, answers)
    ensures Awaits(OneTurn(p, controller), issued, answers + TurnAnswers(p, controller))
  {
    if IsControllerRun(p, controller(p)) {
      ControllerRunInStep(p, controller(p));
      PostedAre(p, controller(p), answers);
    }
  }

  /** The head entry is the driver's exactly when an answer is posted, and then it is the one answer to the one command out. */
  lemma {:induction false} OwnedIsAnswer(q: Queue, issued: nat, answers: seq<(nat, nat)>)
    requires Awaits(q, issued, answers)
    ensures Owned(q) <==> answers != []
    ensures Owned(q) ==> answers == [(issued, q.cq[q.cqHead].status)]
  {
    AcceptsIff(q);
    if Owned(q) {
      PollInStep(q);
      OnePlace(q);
      assert |Pairs(Posted(q))| == 1 && Pairs(Posted(q))[0] == (q.issued, q.cq[q.cqHead].status);
    }
  }

  /** Over the first `turns` polls the controller neither answered nor reported itself dead. */
  ghost predicate Quiet(sent: Queue, controller: Queue -> seq<Step>, fatal: Queue -> bool, turns: nat) {
    turns > 0 ==>
      Quiet(sent, controller, fatal, turns - 1) && AnswersIn(sent, controller, turns) == [] && !fatal(Turned(sent, controller, turns))
  }

  ghost predicate CompletedAt(sent: Queue, controller: Queue -> seq<Step>, fatal: Queue -> bool, i: nat, serial: nat, status: nat) {
    && i > 0 && Quiet(sent, controller, fatal, i - 1)
    && serial == sent.issued && AnswersIn(sent, controller, i) == [(serial, status)]
  }

  ghost predicate FatalAt(sent: Queue, controller: Queue -> seq<Step>, fatal: Queue -> bool, i: nat) {
    && i > 0 && Quiet(sent, controller, fatal, i - 1)
    && AnswersIn(sent, controller, i) == [] && fatal(Turned(sent, controller, i))
  }

  /**
   How a transaction that published `sent` ends. Completed: at the first poll with news, the controller has answered
   this command, once, with this status. Fatal: the first news is its death. Timed out: there was none in `spins` polls.
   */
  ghost predicate Concluded(sent: Queue, controller: Queue -> seq<Step>, fatal: Queue -> bool, spins: nat, r: Outcome) {
    match r
    case Completed(serial, status) => exists i: nat :: CompletedAt(sent, controller, fatal, i, serial, status) && i <= spins
    case ControllerFatal => exists i: nat :: FatalAt(sent, controller, fatal, i) && i <= spins
    case CompletionTimeout => Quiet(sent, controller, fatal, spins)
  }

  /** The driver has polled `i` times without news. */
  ghost predicate Polling(sent: Queue, controller: Queue -> seq<Step>, fatal: Queue -> bool, i: nat, q: Queue) {
    && Awaits(q, sent.issued, AnswersIn(sent, controller, i)) && q == Turned(sent, controller, i)
    && AnswersIn(sent, controller, i) == [] && Quiet(sent, controller, fatal, i)
  }

  /** What the next poll finds. */
  lemma {:induction false} PollFinds(sent: Queue, controller: Queue -> seq<Step>, fatal: Queue -> bool, i: nat, q: Queue)
    requires Polling(sent, controller, fatal, i, q)
    ensures var p := OneTurn(q, controller);
            && InStep(p) && p.waiting && p.issued == sent.issued
            && (Owned(p) ==> CompletedAt(sent, controller, fatal, i + 1, p.issued, p.cq[p.cqHead].status))
            && (!Owned(p) && fatal(p) ==> FatalAt(sent, controller, fatal, i + 1))
            && (!Owned(p) && !fatal(p) ==> Polling(sent, controller, fatal, i + 1, p))
  {
    TurnKeeps(q, controller, sent.issued, AnswersIn(sent, controller, i));
    OwnedIsAnswer(OneTurn(q, controller), sent.issued, AnswersIn(sent, controller, i + 1));
  }

  lemma {:induction false} SubmitPosts(q: Queue, controller: Queue -> seq<Step>, fatal: Queue -> bool)
    requires InStep(q) && !q.waiting
    ensures Polling(Next(q, Submit), controller, fatal, 0, Next(q, Submit))
  {
    SubmitInStep(q);
    LevelWhenIdle(q);
    SubmitMoves(q);
  }

  class Driver {
    var q: Queue

    /** Both rings zeroed, the expected phase set. */
    constructor ()
      ensures InStep(q) && !q.waiting
    {
      q := Fresh();
      FreshInStep();
    }

    /**
     One command: publish it, ring the bell, poll the head entry until it is this lap's or `spins` polls
     are spent, consume it. The controller acts between polls as `controller` chooses, and may report itself dead.
     */
    method Transact(controller: Queue -> seq<Step>, fatal: Queue -> bool, spins: nat) returns (r: Outcome)
      requires InStep(q) && !q.waiting
      requires forall p {:trigger controller(p)} :: Shaped(p) ==> IsControllerRun(p, controller(p))
      modifies this
      ensures q.issued == old(q).issued + 1
      ensures Concluded(Next(old(q), Submit), controller, fatal, spins, r)
      ensures r.Completed? ==> InStep(q) && !q.waiting && r.serial == q.issued
      ensures !r.Completed? ==> Orderly(q) && !q.waiting && Outstanding(q) == multiset{q.issued}
      ensures r.ControllerFatal? ==> fatal(q.(waiting := true))
    {
      SubmitPosts(q, controller, fatal);
      ghost var sent := Next(q, Submit);
      Publish();
      r := Await(sent, controller, fatal, spins);
    }

    /** Poll until there is news or the polls are spent. */
    method Await(ghost sent: Queue, controller: Queue -> seq<Step>, fatal: Queue -> bool, spins: nat) returns (r: Outcome)
      requires Polling(sent, controller, fatal, 0, q)
      requires forall p {:trigger controller(p)} :: Shaped(p) ==> IsControllerRun(p, controller(p))
      modifies this
      ensures q.issued == sent.issued && Concluded(sent, controller, fatal, spins, r)
      ensures r.Completed? ==> InStep(q) && !q.waiting && r.serial == q.issued
      ensures !r.Completed? ==> Orderly(q) && !q.waiting && Outstanding(q) == multiset{q.issued}
      ensures r.ControllerFatal? ==> fatal(q.(waiting := true))
    {
      var i := 0;
      while i < spins
        invariant i <= spins && Polling(sent, controller, fatal, i, q)
      {
        PollFinds(sent, controller, fatal, i, q);
        Act(controller);
        if Owned(q) {
          r := Consume();
          return;
        }
        if fatal(q) {
          Abandon();
          return ControllerFatal;
        }
        i := i + 1;
      }
      Abandon();
      return CompletionTimeout;
    }

    /** Claim a slot, write the command, ring the tail bell. */
    method Publish()
      requires InStep(q) && !q.waiting
      modifies this
      ensures InStep(q) && q.waiting && q.issued == old(q).issued + 1 && q == Next(old(q), Submit)
    {
      SubmitInStep(q);
      var tail := Wrap(q.sqTail + 1);
      q := q.(sq := q.sq[q.sqTail := q.issued + 1], sqTail := tail, tailBell := tail, issued := q.issued + 1, waiting := true);
    }

    /** The controller's turn. */
    method Act(controller: Queue -> seq<Step>)
      requires Shaped(q) && IsControllerRun(q, controller(q))
      modifies this
      ensures q == OneTurn(old(q), controller)
    {
      q := After(q, controller(q));
    }

    method Abandon()
      requires InStep(q) && q.waiting
      modifies this
      ensures Orderly(q) && !q.waiting && Outstanding(q) == multiset{q.issued} && q.issued == old(q).issued
      ensures q == old(q).(waiting := false)
    {
      GiveUpLeavesIt(q);
      q := q.(waiting := false);
    }

    /** Take the head entry: advance, flip the phase at the wrap, ring the head bell, note what the controller has read. */
    method Consume() returns (r: Outcome)
      requires InStep(q) && q.waiting && Owned(q)
      modifies this
      ensures InStep(q) && !q.waiting && q.issued == old(q).issued && q == Next(old(q), Poll)
      ensures r == Completed(q.issued, old(q).cq[old(q).cqHead].status)
    {
      PollInStep(q);
      var c := q.cq[q.cqHead];
      var head := Wrap(q.cqHead + 1);
      q := q.(cqHead := head, headBell := head, cqPhase := if head == 0 then !q.cqPhase else q.cqPhase,
              sqHead := c.sqHead, waiting := false);
      return Completed(c.serial, c.status);
    }
  }
}
