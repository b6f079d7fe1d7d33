/** Which worker a call of run_task gets, when it is refused, and when a worker is free again. */
module PoolDispatch {
  import opened ThreadPool
  import opened Wrappers

  /** Call t holds the dispatch lock and is about to read worker j's flag, which has this value. */
  predicate Reads(p: Pool, t: nat, j: nat, busy: bool) {
    && t < |p.calls| && p.calls[t].returned == None && p.calls[t].caller < |p.callers|
    && p.callers[p.calls[t].caller] == Caller(Scanning(j), t) && p.dispatchLock == Some(p.calls[t].caller)
    && j < |p.workers| && p.workers[j].busy == busy
  }

  /** In some state of the run it was so. */
  ghost predicate HasRead(start: Pool, events: seq<Event>, t: nat, j: nat, busy: bool) {
    exists k: nat :: k <= |events| && Reads(Run(start, events[..k]), t, j, busy)
  }

  /** Every worker before the i-th was read as busy. */
  ghost predicate Passed(start: Pool, events: seq<Event>, t: nat, i: nat) {
    forall j: nat :: j < i ==> HasRead(start, events, t, j, true)
  }

  ghost predicate Chosen(start: Pool, events: seq<Event>, t: nat, i: nat) {
    Passed(start, events, t, i) && HasRead(start, events, t, i, false)
  }

  ghost predicate CallerHistory(start: Pool, events: seq<Event>, p: Pool, d: nat)
    requires d < |p.callers|
  {
    var t := p.callers[d].ticket;
    match p.callers[d].pc
    case Scanning(i) => i <= |p.workers| && Passed(start, events, t, i)
    case Marking(i) => Chosen(start, events, t, i)
    case Copying(i, _) => Chosen(start, events, t, i)
    case Returning(suc) => suc || Passed(start, events, t, |p.workers|)
    case _ => true
  }

  ghost predicate CallHistory(start: Pool, events: seq<Event>, p: Pool, t: nat)
    requires t < |p.calls|
  {
    && (p.calls[t].returned == Some(false) ==> Passed(start, events, t, |p.workers|))
    && (p.calls[t].place.At? ==> Chosen(start, events, t, p.calls[t].place.worker))
  }

  ghost predicate History(start: Pool, events: seq<Event>) {
    var p := Run(start, events);
    && (forall d :: 0 <= d < |p.callers| ==> CallerHistory(start, events, p, d))
    && (forall t :: 0 <= t < |p.calls| ==> CallHistory(start, events, p, t))
  }

  lemma RunAppend(start: Pool, events: seq<Event>, e: Event)
    ensures Run(start, events + [e]) == Step(Run(start, events), e)
  {
    hide Step;
    assert (events + [e])[..|events|] == events;
  }

  /** What was read stays read. */
  lemma ReadStays(start: Pool, events: seq<Event>, e: Event, t: nat, j: nat, busy: bool)
    requires HasRead(start, events, t, j, busy)
    ensures HasRead(start, events + [e], t, j, busy)
  {
    hide Run, Reads;
    var k: nat :| k <= |events| && Reads(Run(start, events[..k]), t, j, busy);
    assert (events + [e])[..k] == events[..k];
  }

  lemma PassedStays(start: Pool, events: seq<Event>, e: Event, t: nat, i: nat)
    ensures Passed(start, events, t, i) ==> Passed(start, events + [e], t, i)
    ensures Chosen(start, events, t, i) ==> Chosen(start, events + [e], t, i)
  {
    hide HasRead;
    forall j: nat, busy | HasRead(start, events, t, j, busy) ensures HasRead(start, events + [e], t, j, busy) {
      ReadStays(start, events, e, t, j, busy);
    }
  }

  lemma ReadNow(start: Pool, events: seq<Event>, t: nat, j: nat, busy: bool)
    requires Reads(Run(start, events), t, j, busy)
    ensures HasRead(start, events, t, j, busy)
  {
    hide Run, Reads;
    assert events[..|events|] == events;
  }

  /** Only a caller's own step moves it on. */
  lemma OthersStay(p: Pool, e: Event, d: nat)
    requires d < |p.callers| && e != CallerMoves(d)
    ensures |Step(p, e).callers| == |p.callers|
    ensures Step(p, e).callers[d] == p.callers[d] || Step(p, e).callers[d].pc.Locking?
  {
  }

  lemma CallerKeepsHistory(start: Pool, events: seq<Event>, e: Event, d: nat)
    requires Inv(Run(start, events)) && History(start, events) && d < |Run(start, events).callers|
    ensures var p' := Step(Run(start, events), e);
            |p'.callers| == |Run(start, events).callers| && CallerHistory(start, events + [e], p', d)
  {
    hide Run, Passed, Chosen, CallSound, WorkerSound, FlightSound;
    var p := Run(start, events);
    var p', c := Step(p, e), p.callers[d];
    assert CallerHistory(start, events, p, d) && CallerSound(p, d);
    WorkersStay(p, e);
    PassedStays(start, events, e, c.ticket, |p.workers|);
    forall i: nat ensures Passed(start, events, c.ticket, i) ==> Passed(start, events + [e], c.ticket, i)
      ensures Chosen(start, events, c.ticket, i) ==> Chosen(start, events + [e], c.ticket, i) {
      PassedStays(start, events, e, c.ticket, i);
    }
    if e == CallerMoves(d) {
      if c.pc.Locking? {
        NonePassed(start, events + [e], c.ticket);
      } else if c.pc.Scanning? && c.pc.i < |p.workers| {
        ReadNow(start, events, c.ticket, c.pc.i, p.workers[c.pc.i].busy);
        OnePassed(start, events, e, c.ticket, c.pc.i, p.workers[c.pc.i].busy);
      }
    } else {
      OthersStay(p, e, d);
    }
  }

  lemma WorkersStay(p: Pool, e: Event)
    ensures |Step(p, e).workers| == |p.workers| && |Step(p, e).callers| == |p.callers|
  {
  }

  lemma NonePassed(start: Pool, events: seq<Event>, t: nat)
    ensures Passed(start, events, t, 0)
  {
  }

  lemma OnePassed(start: Pool, events: seq<Event>, e: Event, t: nat, i: nat, busy: bool)
    requires Passed(start, events, t, i) && HasRead(start, events, t, i, busy)
    ensures busy ==> Passed(start, events + [e], t, i + 1)
    ensures !busy ==> Chosen(start, events + [e], t, i)
  {
    hide HasRead;
    PassedStays(start, events, e, t, i);
    ReadStays(start, events, e, t, i, busy);
  }

  lemma CallKeepsHistory(start: Pool, events: seq<Event>, e: Event, t: nat)
    requires Inv(Run(start, events)) && History(start, events) && t < |Step(Run(start, events), e).calls|
    ensures CallHistory(start, events + [e], Step(Run(start, events), e), t)
  {
    hide Run, Passed, Chosen, CallSound, WorkerSound, FlightSound;
    var p := Run(start, events);
    WorkersStay(p, e);
    if t < |p.calls| {
      assert CallHistory(start, events, p, t);
      PassedStays(start, events, e, t, |p.workers|);
      if p.calls[t].place.At? {
        PassedStays(start, events, e, t, p.calls[t].place.worker);
      }
      if e.CallerMoves? && e.caller < |p.callers| {
        var c := p.callers[e.caller];
        assert CallerHistory(start, events, p, e.caller) && CallerSound(p, e.caller);
        if c.pc.Copying? {
          PassedStays(start, events, e, c.ticket, c.pc.i);
        }
      }
    }
  }

  lemma InitHistory(workers: nat, callers: nat, checkers: nat)
    ensures History(Init(workers, callers, checkers), [])
  {
  }

  lemma {:induction false} RunHistory(workers: nat, callers: nat, checkers: nat, events: seq<Event>)
    ensures History(Init(workers, callers, checkers), events)
  {
    hide Step, Init, Inv, CallerHistory, CallHistory;
    if events == [] {
      InitHistory(workers, callers, checkers);
    } else {
      var start, before, e := Init(workers, callers, checkers), events[..|events| - 1], events[|events| - 1];
      RunHistory(workers, callers, checkers, before);
      RunKeeps(workers, callers, checkers, before);
      assert events == before + [e];
      var p := Step(Run(start, before), e);
      WorkersStay(Run(start, before), e);
      forall d | 0 <= d < |p.callers| ensures CallerHistory(start, events, p, d) {
        CallerKeepsHistory(start, before, e, d);
      }
      forall t | 0 <= t < |p.calls| ensures CallHistory(start, events, p, t) {
        CallKeepsHistory(start, before, e, t);
      }
    }
  }

  /** In every run: if a call returned 0 then, while it held the dispatch lock, it found every worker
      busy; and a task that is in a worker got there because the call found that worker idle and every
      worker of a lower number busy. */
  lemma RefusedMeansBusy(workers: nat, callers: nat, checkers: nat, events: seq<Event>, t: nat)
    requires t < |Run(Init(workers, callers, checkers), events).calls|
    ensures
      var start := Init(workers, callers, checkers);
      var call := Run(start, events).calls[t];
      && (call.returned == Some(false) ==> forall j: nat :: j < workers ==> HasRead(start, events, t, j, true))
      && (call.place.At? ==> call.place.worker < workers && HasRead(start, events, t, call.place.worker, false) &&
                             forall j: nat :: j < call.place.worker ==> HasRead(start, events, t, j, true))
  {
    hide Run, HasRead;
    var start := Init(workers, callers, checkers);
    RunHistory(workers, callers, checkers, events);
    RunKeeps(workers, callers, checkers, events);
    WorkerCount(workers, callers, checkers, events);
    assert CallHistory(start, events, Run(start, events), t);
    assert CallSound(Run(start, events), t);
  }

  lemma {:induction false} WorkerCount(workers: nat, callers: nat, checkers: nat, events: seq<Event>)
    ensures |Run(Init(workers, callers, checkers), events).workers| == workers
  {
    hide Step;
    if events != [] {
      WorkerCount(workers, callers, checkers, events[..|events| - 1]);
      WorkersStay(Run(Init(workers, callers, checkers), events[..|events| - 1]), events[|events| - 1]);
    }
  }

  /** If some worker is never seen busy by the call while it holds the lock and has chosen none, the
      call does not return 0; once it has returned, its task has been accepted. */
  lemma IdleWorkerAccepts(workers: nat, callers: nat, checkers: nat, events: seq<Event>, t: nat, j: nat)
    requires t < |Run(Init(workers, callers, checkers), events).calls| && j < workers
    requires forall k: nat :: k <= |events| ==> !Reads(Run(Init(workers, callers, checkers), events[..k]), t, j, true)
    ensures
      var p := Run(Init(workers, callers, checkers), events);
      var call := p.calls[t];
      call.returned.Some? ==>
        call.returned.value && (call.runs == [call.words] || exists i: nat :: Holds(p, i, t))
  {
    hide Run, Reads, Holds;
    RefusedMeansBusy(workers, callers, checkers, events, t);
    TasksRunOnce(workers, callers, checkers, events, t);
    assert !HasRead(Init(workers, callers, checkers), events, t, j, true);
  }

  // ---- one thread alone ------------------------------------------------------------------------------

  /** The same event m times. */
  function Repeated(p: Pool, e: Event, m: nat): Pool {
    if m == 0 then p else Step(Repeated(p, e, m - 1), e)
  }

  /** A worker that a call's task has been handed to. */
  predicate Launched(w: Worker, words: Words, t: nat) {
    w == Worker(false, true, words, Waiting, t)
  }

  /** While the flags read are busy, scanning goes on and changes nothing else. */
  lemma {:induction false} ScanAlone(p: Pool, d: nat, i: nat)
    requires d < |p.callers| && p.callers[d].ticket < |p.calls| && p.callers[d].pc == Locking && p.dispatchLock == None
    requires i <= |p.workers| && forall j :: 0 <= j < i ==> p.workers[j].busy
    ensures Repeated(p, CallerMoves(d), i + 1) ==
            p.(dispatchLock := Some(d), callers := p.callers[d := Caller(Scanning(i), p.callers[d].ticket)])
  {
    hide Step;
    if i == 0 {
      assert Repeated(p, CallerMoves(d), 0) == p;
      LockStep(p, d);
    } else {
      ScanAlone(p, d, i - 1);
      ScanStep(p, d, i - 1);
    }
  }

  lemma LockStep(p: Pool, d: nat)
    requires d < |p.callers| && p.callers[d].ticket < |p.calls| && p.callers[d].pc == Locking && p.dispatchLock == None
    ensures Step(p, CallerMoves(d)) ==
            p.(dispatchLock := Some(d), callers := p.callers[d := Caller(Scanning(0), p.callers[d].ticket)])
  {
  }

  lemma ScanStep(p: Pool, d: nat, i: nat)
    requires d < |p.callers| && p.callers[d].ticket < |p.calls| && i < |p.workers| && p.workers[i].busy
    ensures
      var t := p.callers[d].ticket;
      Step(p.(dispatchLock := Some(d), callers := p.callers[d := Caller(Scanning(i), t)]), CallerMoves(d)) ==
      p.(dispatchLock := Some(d), callers := p.callers[d := Caller(Scanning(i + 1), t)])
  {
  }

  /** A call that runs alone returns 0 and starts nothing if every worker is busy; otherwise it hands its
      task to the idle worker of the lowest number and returns 1. */
  lemma CallAlone(p: Pool, d: nat) returns (m: nat)
    requires Inv(p) && d < |p.callers| && p.callers[d].pc == Locking && p.dispatchLock == None
    ensures
      var t, p' := p.callers[d].ticket, Repeated(p, CallerMoves(d), m);
      && t < |p.calls| == |p'.calls| && |p'.workers| == |p.workers|
      && p'.dispatchLock == None && p'.calls[t].returned.Some?
      && (p'.calls[t].returned == Some(false) ==>
            p'.workers == p.workers && forall j :: 0 <= j < |p.workers| ==> p.workers[j].busy)
      && (p'.calls[t].returned == Some(true) ==>
            exists i: nat ::
              && i < |p.workers| && !p.workers[i].busy && (forall j :: 0 <= j < i ==> p.workers[j].busy)
              && Launched(p'.workers[i], p.calls[t].words, t)
              && p'.workers == p.workers[i := p'.workers[i]])
  {
    hide Step, Run, Inv;
    CallerFacts(p, d);
    var i: nat := 0;
    while i < |p.workers| && p.workers[i].busy
      invariant i <= |p.workers| && forall j :: 0 <= j < i ==> p.workers[j].busy
    {
      i := i + 1;
    }
    ScanAlone(p, d, i);
    var q := Repeated(p, CallerMoves(d), i + 1);
    if i == |p.workers| {
      m := i + 3;
      RefuseSteps(p, q, d);
    } else {
      m := i + 8;
      AcceptSteps(p, q, d, i);
    }
    RepeatedMore(p, CallerMoves(d), i + 1, m);
  }

  lemma CallerFacts(p: Pool, d: nat)
    requires Inv(p) && d < |p.callers| && p.callers[d].pc == Locking
    ensures p.callers[d].ticket < |p.calls| && |p.calls[p.callers[d].ticket].words| == WORDS
    ensures forall i :: 0 <= i < |p.workers| ==>
              |p.workers[i].arg| == WORDS && (!p.workers[i].busy ==> p.workers[i].pc == Waiting)
  {
    assert CallerSound(p, d) && CallSound(p, p.callers[d].ticket);
    forall i | 0 <= i < |p.workers|
      ensures |p.workers[i].arg| == WORDS && (!p.workers[i].busy ==> p.workers[i].pc == Waiting)
    {
      assert WorkerSound(p, i);
    }
  }

  lemma {:induction false} RepeatedMore(p: Pool, e: Event, a: nat, b: nat)
    requires a <= b
    ensures Repeated(p, e, b) == Repeated(Repeated(p, e, a), e, b - a)
  {
    hide Step;
    if a < b {
      RepeatedMore(p, e, a, b - 1);
    }
  }

  lemma RefuseSteps(p: Pool, q: Pool, d: nat)
    requires d < |p.callers| && p.callers[d].ticket < |p.calls|
    requires q == p.(dispatchLock := Some(d),
                     callers := p.callers[d := Caller(Scanning(|p.workers|), p.callers[d].ticket)])
    ensures
      var t, p' := p.callers[d].ticket, Repeated(q, CallerMoves(d), 2);
      p'.dispatchLock == None && p'.workers == p.workers && |p'.calls| == |p.calls| &&
      p'.calls[t].returned == Some(false)
  {
    assert Repeated(q, CallerMoves(d), 0) == q;
    assert Repeated(q, CallerMoves(d), 1) == Step(q, CallerMoves(d));
  }

  /** The steps of a call that has found worker i idle. */
  function Handing(p: Pool, d: nat, i: nat, k: nat): Pool
    requires d < |p.callers| && p.callers[d].ticket < |p.calls| && i < |p.workers|
    requires |p.workers[i].arg| == WORDS == |p.calls[p.callers[d].ticket].words| && k <= WORDS
  {
    var t, w := p.callers[d].ticket, p.workers[i];
    p.(dispatchLock := Some(d), callers := p.callers[d := Caller(Copying(i, k), t)],
       workers := p.workers[i := w.(busy := true, arg := p.calls[t].words[..k] + w.arg[k..])])
  }

  lemma MarkSteps(p: Pool, q: Pool, d: nat, i: nat)
    requires d < |p.callers| && p.callers[d].ticket < |p.calls| && i < |p.workers| && !p.workers[i].busy
    requires |p.workers[i].arg| == WORDS == |p.calls[p.callers[d].ticket].words|
    requires q == p.(dispatchLock := Some(d), callers := p.callers[d := Caller(Scanning(i), p.callers[d].ticket)])
    ensures Step(Step(q, CallerMoves(d)), CallerMoves(d)) == Handing(p, d, i, 0)
  {
    assert p.calls[p.callers[d].ticket].words[..0] + p.workers[i].arg[0..] == p.workers[i].arg;
  }

  lemma CopyStep(p: Pool, d: nat, i: nat, k: nat)
    requires d < |p.callers| && p.callers[d].ticket < |p.calls| && i < |p.workers| && k < WORDS
    requires |p.workers[i].arg| == WORDS == |p.calls[p.callers[d].ticket].words|
    ensures Step(Handing(p, d, i, k), CallerMoves(d)) == Handing(p, d, i, k + 1)
  {
    var words, arg := p.calls[p.callers[d].ticket].words, p.workers[i].arg;
    assert (words[..k] + arg[k..])[k := words[k]] == words[..k + 1] + arg[k + 1..];
  }

  lemma LaunchSteps(p: Pool, d: nat, i: nat)
    requires d < |p.callers| && p.callers[d].ticket < |p.calls| && i < |p.workers| && p.workers[i].pc == Waiting
    requires |p.workers[i].arg| == WORDS == |p.calls[p.callers[d].ticket].words|
    ensures
      var t, p' := p.callers[d].ticket, Step(Step(Handing(p, d, i, WORDS), CallerMoves(d)), CallerMoves(d));
      && p'.dispatchLock == None && |p'.calls| == |p.calls| && p'.calls[t].returned == Some(true)
      && |p'.workers| == |p.workers| && Launched(p'.workers[i], p.calls[t].words, t)
      && p'.workers == p.workers[i := p'.workers[i]]
  {
    var words, arg := p.calls[p.callers[d].ticket].words, p.workers[i].arg;
    assert words[..WORDS] + arg[WORDS..] == words;
  }

  lemma AcceptSteps(p: Pool, q: Pool, d: nat, i: nat)
    requires d < |p.callers| && p.callers[d].ticket < |p.calls| && i < |p.workers|
    requires !p.workers[i].busy && p.workers[i].pc == Waiting
    requires |p.workers[i].arg| == WORDS == |p.calls[p.callers[d].ticket].words|
    requires q == p.(dispatchLock := Some(d), callers := p.callers[d := Caller(Scanning(i), p.callers[d].ticket)])
    ensures
      var t, p' := p.callers[d].ticket, Repeated(q, CallerMoves(d), 7);
      && p'.dispatchLock == None && |p'.calls| == |p.calls| && p'.calls[t].returned == Some(true)
      && |p'.workers| == |p.workers| && Launched(p'.workers[i], p.calls[t].words, t)
      && p'.workers == p.workers[i := p'.workers[i]]
  {
    hide Step, Handing;
    var e := CallerMoves(d);
    MarkSteps(p, q, d, i);
    CopyStep(p, d, i, 0);
    CopyStep(p, d, i, 1);
    CopyStep(p, d, i, 2);
    LaunchSteps(p, d, i);
    assert Repeated(q, e, 0) == q;
    assert Repeated(q, e, 2) == Step(Step(q, e), e) == Handing(p, d, i, 0);
    assert Repeated(q, e, 4) == Handing(p, d, i, 2);
    assert Repeated(q, e, 5) == Handing(p, d, i, 3);
  }

  /** How many steps a worker is away from having read its argument. */
  function StepsLeft(w: Worker): nat {
    match w.pc
    case Waiting => WORDS + 1
    case Reading(got) => if |got| <= WORDS then WORDS - |got| else 0
    case _ => 0
  }

  lemma FlightStep(p: Pool, i: nat)
    requires Inv(p) && i < |p.workers| && InFlight(p.workers[i])
    ensures
      var w, p' := p.workers[i], Step(p, WorkerMoves(i));
      && |p'.workers| == |p.workers| && |p'.calls| == |p.calls| && w.ticket < |p.calls|
      && p'.workers[i].ticket == w.ticket && p'.calls[w.ticket].words == p.calls[w.ticket].words
      && if StepsLeft(w) > 0 then InFlight(p'.workers[i]) && StepsLeft(p'.workers[i]) < StepsLeft(w)
         else p'.workers[i].pc == Announcing && p'.workers[i].locked
              && p'.calls[w.ticket].runs == [p.calls[w.ticket].words]
  {
    assert WorkerSound(p, i) && FlightSound(p, i) && CallSound(p, p.workers[i].ticket);
    var w := p.workers[i];
    if w.pc.Reading? && |w.pc.got| == WORDS {
      assert w.pc.got == w.arg;
    }
  }

  /** A worker that a task was handed to, left alone, executes it with its own argument and is then
      idle. */
  lemma WorkerAlone(p: Pool, i: nat) returns (m: nat)
    requires Inv(p) && i < |p.workers| && InFlight(p.workers[i])
    ensures
      var t, p' := p.workers[i].ticket, Repeated(p, WorkerMoves(i), m);
      && t < |p.calls| == |p'.calls| && p'.calls[t].runs == [p.calls[t].words]
      && i < |p'.workers| && !p'.workers[i].busy && p'.workers[i].pc == Waiting && p'.workers[i].locked
  {
    hide Step, Inv;
    var e, q, t := WorkerMoves(i), p, p.workers[i].ticket;
    m := 0;
    FlightStep(p, i);
    while StepsLeft(q.workers[i]) > 0
      invariant q == Repeated(p, e, m) && Inv(q) && |q.workers| == |p.workers| && |q.calls| == |p.calls|
      invariant InFlight(q.workers[i]) && q.workers[i].ticket == t < |q.calls| && q.calls[t].words == p.calls[t].words
      decreases StepsLeft(q.workers[i])
    {
      FlightStep(q, i);
      StepKeeps(q, e);
      q, m := Step(q, e), m + 1;
    }
    FlightStep(q, i);
    AnnounceStep(Step(q, e), i);
    m := m + 2;
    assert Repeated(p, e, m) == Step(Repeated(p, e, m - 1), e) && Repeated(p, e, m - 1) == Step(q, e);
  }

  lemma AnnounceStep(p: Pool, i: nat)
    requires i < |p.workers| && p.workers[i].pc == Announcing
    ensures Step(p, WorkerMoves(i)) == p.(workers := p.workers[i := p.workers[i].(busy := false, pc := Waiting)])
  {
  }

  /** A worker that starts is idle after two steps of its own. */
  lemma StartAlone(p: Pool, i: nat)
    requires Inv(p) && i < |p.workers| && p.workers[i].pc == Starting
    ensures
      var p' := Repeated(p, WorkerMoves(i), 2);
      i < |p'.workers| && !p'.workers[i].busy && p'.workers[i].pc == Waiting && p'.workers[i].locked
  {
    assert WorkerSound(p, i);
    var e := WorkerMoves(i);
    assert Repeated(p, e, 0) == p && Repeated(p, e, 1) == Step(p, e);
  }

  // ---- is_finished -------------------------------------------------------------------------------------

  /** A check that runs alone answers 1 exactly when no flag is busy. */
  lemma {:induction false} CheckAlone(p: Pool, c: nat, i: nat) returns (m: nat)
    requires c < |p.checkers| && p.checkers[c].Checking? && p.checkers[c].i == i <= |p.workers|
    ensures
      var p' := Repeated(p, CheckerMoves(c), m);
      && |p'.checkers| == |p.checkers| && p'.checkers[c].Answered?
      && (p'.checkers[c].finished <==> forall j :: i <= j < |p.workers| ==> !p.workers[j].busy)
    decreases |p.workers| - i
  {
    hide AcceptedCalls;
    var e := CheckerMoves(c);
    var q := Step(p, e);
    assert Repeated(p, e, 0) == p && Repeated(p, e, 1) == q;
    if i < |p.workers| && !p.workers[i].busy {
      m := CheckAlone(q, c, i + 1);
      RepeatedMore(p, e, 1, m + 1);
      m := m + 1;
    } else {
      m := 1;
    }
  }

  /** In some state of the run the check was about to read a flag that was busy. */
  ghost predicate FoundBusy(start: Pool, events: seq<Event>, c: nat) {
    exists k: nat, j: nat :: k <= |events| && FlagBusy(Run(start, events[..k]), c, j)
  }

  predicate FlagBusy(p: Pool, c: nat, j: nat) {
    c < |p.checkers| && p.checkers[c].Checking? && p.checkers[c].i == j < |p.workers| && p.workers[j].busy
  }

  /** In every run: a check that answers 0 has read some worker's flag as busy. */
  lemma {:induction false} UnfinishedMeansBusy(start: Pool, events: seq<Event>, c: nat)
    requires forall k :: 0 <= k < |start.checkers| ==> !start.checkers[k].Answered?
    requires
      var p := Run(start, events);
      c < |p.checkers| && p.checkers[c].Answered? && !p.checkers[c].finished
    ensures FoundBusy(start, events, c)
  {
    hide CallerStep, WorkerStep, AcceptedCalls;
    if events != [] {
      var before, e := events[..|events| - 1], events[|events| - 1];
      var p := Run(start, before);
      CheckersAlone(p, e);
      if e == CheckerMoves(c) {
        assert FlagBusy(Run(start, events[..|before|]), c, p.checkers[c].i);
      } else {
        UnfinishedMeansBusy(start, before, c);
        var k: nat, j: nat :| k <= |before| && FlagBusy(Run(start, before[..k]), c, j);
        assert events[..k] == before[..k];
      }
    }
  }
}
