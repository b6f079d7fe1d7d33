/** The thread pool: dispatchers hand tasks to workers through a lock that one side takes and
    the other releases, and a busy flag nobody locks. Every step below touches one shared
    variable, and the steps of all threads interleave freely. */
module ThreadPool {
  import opened Wrappers

  /** A task's argument is copied and read word by word: function, input, output. */
  type Words = seq<int>
  const WORDS := 3

  /** Where a worker is: before its first lock, before busy = 0, before the next lock, or reading
      its argument word by word. */
  datatype WorkerPc = Starting | Announcing | Waiting | Reading(got: Words)

  /** ticket is bookkeeping: the call the worker was last launched for. */
  datatype Worker = Worker(locked: bool, busy: bool, arg: Words, pc: WorkerPc, ticket: nat)

  /** Where run_task is. */
  datatype CallerPc =
    | Idle
    | Locking
    | Scanning(i: nat)
    | Marking(i: nat)
    | Copying(i: nat, k: nat)
    | Returning(suc: bool)

  datatype Caller = Caller(pc: CallerPc, ticket: nat)

  /** Bookkeeping: where a call's task is. */
  datatype Place = Nowhere | At(worker: nat) | Finished

  /** Bookkeeping: one call of run_task, the arguments its task was executed with, and what the
      call returned. */
  datatype Call = Call(caller: nat, words: Words, place: Place, runs: seq<Words>, returned: Option<bool>)

  /** Where is_finished is: it reads the busy flags one after the other. Bookkeeping: the calls
      that had been accepted when it read the first one. */
  datatype Checker = Resting | Checking(i: nat, before: set<nat>) | Answered(finished: bool, before: set<nat>)

  datatype Pool = Pool(
    workers: seq<Worker>,
    dispatchLock: Option<nat>,
    callers: seq<Caller>,
    checkers: seq<Checker>,
    calls: seq<Call>)

  datatype Event =
    | Invoke(caller: nat, words: Words)
    | CallerMoves(caller: nat)
    | WorkerMoves(worker: nat)
    | CheckerMoves(checker: nat)

  function Init(workers: nat, callers: nat, checkers: nat): Pool {
    Pool(seq(workers, _ => Worker(false, true, [0, 0, 0], Starting, 0)), None,
         seq(callers, _ => Caller(Idle, 0)), seq(checkers, _ => Resting), [])
  }

  /** The call has returned 1, or is about to. */
  predicate Accepted(p: Pool, t: nat) {
    t < |p.calls| &&
    (p.calls[t].returned == Some(true) ||
     (p.calls[t].caller < |p.callers| && p.callers[p.calls[t].caller] == Caller(Returning(true), t)))
  }

  /** One step of a worker; a step on a lock that is held changes nothing. */
  function WorkerStep(p: Pool, i: nat): Pool
    requires i < |p.workers|
  {
    var w := p.workers[i];
    match w.pc
    case Starting =>
      if w.locked then p else p.(workers := p.workers[i := w.(locked := true, pc := Announcing)])
    case Announcing => p.(workers := p.workers[i := w.(busy := false, pc := Waiting)])
    case Waiting =>
      if w.locked then p else p.(workers := p.workers[i := w.(locked := true, pc := Reading([]))])
    case Reading(got) =>
      if |got| < |w.arg| then p.(workers := p.workers[i := w.(pc := Reading(got + [w.arg[|got|]]))])
      else
        var p' := p.(workers := p.workers[i := w.(pc := Announcing)]);
        if w.ticket < |p.calls| then
          var c := p.calls[w.ticket];
          p'.(calls := p.calls[w.ticket := c.(place := Finished, runs := c.runs + [got])])
        else p'
  }

  /** One step of run_task. */
  function CallerStep(p: Pool, d: nat): Pool
    requires d < |p.callers| && p.callers[d].ticket < |p.calls|
  {
    var c := p.callers[d];
    var call := p.calls[c.ticket];
    match c.pc
    case Idle => p
    case Locking =>
      if p.dispatchLock != None then p
      else p.(dispatchLock := Some(d), callers := p.callers[d := c.(pc := Scanning(0))])
    case Scanning(i) =>
      if i >= |p.workers| then p.(callers := p.callers[d := c.(pc := Returning(false))])
      else if p.workers[i].busy then p.(callers := p.callers[d := c.(pc := Scanning(i + 1))])
      else p.(callers := p.callers[d := c.(pc := Marking(i))])
    case Marking(i) =>
      if i < |p.workers| then
        p.(workers := p.workers[i := p.workers[i].(busy := true)], callers := p.callers[d := c.(pc := Copying(i, 0))])
      else p
    case Copying(i, k) =>
      if i >= |p.workers| then p
      else if k < |p.workers[i].arg| && k < |call.words| then
        var w := p.workers[i];
        p.(workers := p.workers[i := w.(arg := w.arg[k := call.words[k]])],
          callers := p.callers[d := c.(pc := Copying(i, k + 1))])
      else
        p.(workers := p.workers[i := p.workers[i].(locked := false, ticket := c.ticket)],
           callers := p.callers[d := c.(pc := Returning(true))],
           calls := p.calls[c.ticket := call.(place := At(i))])
    case Returning(suc) =>
      p.(dispatchLock := None, callers := p.callers[d := c.(pc := Idle)],
         calls := p.calls[c.ticket := call.(returned := Some(suc))])
  }

  function AcceptedCalls(p: Pool): set<nat> {
    set t: nat | t < |p.calls| && Accepted(p, t)
  }

  /** One step of is_finished; every step but the first reads one busy flag. */
  function CheckerStep(p: Pool, c: nat): Pool
    requires c < |p.checkers|
  {
    match p.checkers[c]
    case Resting => p.(checkers := p.checkers[c := Checking(0, {})])
    case Checking(i, before) =>
      var before' := if i == 0 then AcceptedCalls(p) else before;
      p.(checkers := p.checkers[c := if i >= |p.workers| then Answered(true, before')
                                     else if p.workers[i].busy then Answered(false, before')
                                     else Checking(i + 1, before')])
    case Answered(_, _) => p.(checkers := p.checkers[c := Resting])
  }

  /** An event that cannot happen changes nothing. */
  function Step(p: Pool, e: Event): Pool {
    match e
    case Invoke(d, words) =>
      if d < |p.callers| && p.callers[d].pc == Idle && |words| == WORDS then
        p.(callers := p.callers[d := Caller(Locking, |p.calls|)],
           calls := p.calls + [Call(d, words, Nowhere, [], None)])
      else p
    case CallerMoves(d) =>
      if d < |p.callers| && p.callers[d].ticket < |p.calls| then CallerStep(p, d) else p
    case WorkerMoves(i) => if i < |p.workers| then WorkerStep(p, i) else p
    case CheckerMoves(c) => if c < |p.checkers| then CheckerStep(p, c) else p
  }

  function Run(p: Pool, events: seq<Event>): Pool {
    if events == [] then p else Step(Run(p, events[..|events| - 1]), events[|events| - 1])
  }

  // ---- the invariant -------------------------------------------------------------------

  /** Launched, and not yet done with its task. */
  predicate InFlight(w: Worker) {
    w.pc.Reading? || (w.pc.Waiting? && !w.locked)
  }

  predicate CopyingTo(p: Pool, i: nat) {
    && p.dispatchLock.Some? && p.dispatchLock.value < |p.callers|
    && p.callers[p.dispatchLock.value].pc.Copying? && p.callers[p.dispatchLock.value].pc.i == i
  }

  predicate WorkerSound(p: Pool, i: nat)
    requires i < |p.workers|
  {
    var w := p.workers[i];
    && |w.arg| == WORDS
    && match w.pc
       case Starting => w.busy && !w.locked
       case Announcing => w.busy && w.locked
       case Waiting => if w.locked then w.busy ==> CopyingTo(p, i) else w.busy
       case Reading(got) => w.busy && w.locked && got <= w.arg
  }

  predicate FlightSound(p: Pool, i: nat)
    requires i < |p.workers|
  {
    var w := p.workers[i];
    InFlight(w) ==>
      w.ticket < |p.calls| && p.calls[w.ticket].place == At(i) && p.calls[w.ticket].words == w.arg
  }

  predicate CallerSound(p: Pool, d: nat)
    requires d < |p.callers|
  {
    var c := p.callers[d];
    && (c.pc.Idle? || c.pc.Locking? <==> p.dispatchLock != Some(d))
    && (!c.pc.Idle? ==>
          && c.ticket < |p.calls| && p.calls[c.ticket].caller == d && p.calls[c.ticket].returned == None
          && (p.calls[c.ticket].place == Nowhere <==> c.pc != Returning(true)))
    && match c.pc
       case Marking(i) => i < |p.workers| && p.workers[i].pc.Waiting? && p.workers[i].locked && !p.workers[i].busy
       case Copying(i, k) =>
         && i < |p.workers| && p.workers[i].pc.Waiting? && p.workers[i].locked && p.workers[i].busy
         && k <= WORDS == |p.workers[i].arg| && |p.calls[c.ticket].words| == WORDS
         && p.workers[i].arg[..k] == p.calls[c.ticket].words[..k]
       case _ => true
  }

  predicate CallSound(p: Pool, t: nat)
    requires t < |p.calls|
  {
    var call := p.calls[t];
    && |call.words| == WORDS
    && (if call.returned.Some? then call.returned.value <==> call.place != Nowhere
        else call.caller < |p.callers| && !p.callers[call.caller].pc.Idle? && p.callers[call.caller].ticket == t)
    && match call.place
       case Nowhere => call.runs == []
       case At(i) => call.runs == [] && i < |p.workers| && InFlight(p.workers[i]) && p.workers[i].ticket == t
       case Finished => call.runs == [call.words]
  }

  ghost predicate Inv(p: Pool) {
    && (forall t :: 0 <= t < |p.calls| ==> CallSound(p, t))
    && (forall d :: 0 <= d < |p.callers| ==> CallerSound(p, d))
    && (forall i :: 0 <= i < |p.workers| ==> WorkerSound(p, i))
    && (forall i :: 0 <= i < |p.workers| ==> FlightSound(p, i))
    && (p.dispatchLock.Some? ==> p.dispatchLock.value < |p.callers|)
  }

  /** While is_finished reads on, every call accepted before its first read is done, or in a
      worker it has not read yet. */
  ghost predicate CheckerSound(p: Pool, c: nat)
    requires c < |p.checkers|
  {
    match p.checkers[c]
    case Resting => true
    case Checking(i, before) => i <= |p.workers| && (i > 0 ==> PromisedFrom(p, before, i))
    case Answered(finished, before) => finished ==> PromisedFrom(p, before, |p.workers|)
  }

  ghost predicate PromisedFrom(p: Pool, before: set<nat>, i: nat) {
    forall t :: t in before ==>
      t < |p.calls| &&
        (p.calls[t].place == Finished || (p.calls[t].place.At? && i <= p.calls[t].place.worker < |p.workers|))
  }

  ghost predicate ChecksSound(p: Pool) {
    forall c :: 0 <= c < |p.checkers| ==> CheckerSound(p, c)
  }

  lemma InitInv(workers: nat, callers: nat, checkers: nat)
    ensures Inv(Init(workers, callers, checkers)) && ChecksSound(Init(workers, callers, checkers))
  {
  }

  // ---- every step keeps it -----------------------------------------------------------------

  lemma WorkerKeepsWorkers(p: Pool, i: nat, j: nat)
    requires Inv(p) && i < |p.workers| && j < |p.workers|
    ensures WorkerSound(WorkerStep(p, i), j) && FlightSound(WorkerStep(p, i), j)
  {
    assert WorkerSound(p, i) && FlightSound(p, i) && WorkerSound(p, j) && FlightSound(p, j);
  }

  lemma WorkerKeepsCallers(p: Pool, i: nat, d: nat)
    requires Inv(p) && i < |p.workers| && d < |p.callers|
    ensures CallerSound(WorkerStep(p, i), d)
  {
    assert WorkerSound(p, i) && FlightSound(p, i) && CallerSound(p, d);
  }

  lemma WorkerKeepsCalls(p: Pool, i: nat, t: nat)
    requires Inv(p) && i < |p.workers| && t < |p.calls|
    ensures CallSound(WorkerStep(p, i), t)
  {
    assert WorkerSound(p, i) && FlightSound(p, i) && CallSound(p, t);
    var w := p.workers[i];
    if w.pc.Reading? && |w.pc.got| == |w.arg| {
      assert w.pc.got == w.arg;
    }
  }

  lemma WorkerKeeps(p: Pool, i: nat)
    requires Inv(p) && i < |p.workers|
    ensures Inv(WorkerStep(p, i))
  {
    hide CallSound, CallerSound, WorkerSound, FlightSound;
    forall t | 0 <= t < |p.calls| ensures CallSound(WorkerStep(p, i), t) { WorkerKeepsCalls(p, i, t); }
    forall d | 0 <= d < |p.callers| ensures CallerSound(WorkerStep(p, i), d) { WorkerKeepsCallers(p, i, d); }
    forall j | 0 <= j < |p.workers|
      ensures WorkerSound(WorkerStep(p, i), j) && FlightSound(WorkerStep(p, i), j)
    {
      WorkerKeepsWorkers(p, i, j);
    }
  }

  lemma CallerKeepsWorkers(p: Pool, d: nat, j: nat)
    requires Inv(p) && d < |p.callers| && p.callers[d].ticket < |p.calls| && j < |p.workers|
    ensures WorkerSound(CallerStep(p, d), j) && FlightSound(CallerStep(p, d), j)
  {
    assert CallerSound(p, d) && WorkerSound(p, j) && FlightSound(p, j);
    var c := p.callers[d];
    if c.pc.Copying? && c.pc.k == WORDS {
      assert p.workers[c.pc.i].arg[..WORDS] == p.workers[c.pc.i].arg;
      assert p.calls[c.ticket].words[..WORDS] == p.calls[c.ticket].words;
    }
  }

  lemma CallerKeepsCallers(p: Pool, d: nat, e: nat)
    requires Inv(p) && d < |p.callers| && p.callers[d].ticket < |p.calls| && e < |p.callers|
    ensures CallerSound(CallerStep(p, d), e)
  {
    assert CallerSound(p, d) && CallerSound(p, e) && CallSound(p, p.callers[d].ticket);
    var c := p.callers[d];
    if (c.pc.Scanning? || c.pc.Marking?) && c.pc.i < |p.workers| {
      assert WorkerSound(p, c.pc.i);
    }
    if c.pc.Copying? && c.pc.k < WORDS {
      CopyOneMore(p.workers[c.pc.i].arg, p.calls[c.ticket].words, c.pc.k);
    }
  }

  lemma CopyOneMore(to: Words, from: Words, k: nat)
    requires k < |to| && k < |from| && to[..k] == from[..k]
    ensures to[k := from[k]][..k + 1] == from[..k + 1]
  {
    assert forall j :: 0 <= j < k ==> to[j] == to[..k][j] && from[j] == from[..k][j];
  }

  lemma CallerKeepsCalls(p: Pool, d: nat, t: nat)
    requires Inv(p) && d < |p.callers| && p.callers[d].ticket < |p.calls| && t < |p.calls|
    ensures CallSound(CallerStep(p, d), t)
  {
    assert CallerSound(p, d) && CallSound(p, t);
  }

  lemma CallerKeeps(p: Pool, d: nat)
    requires Inv(p) && d < |p.callers| && p.callers[d].ticket < |p.calls|
    ensures Inv(CallerStep(p, d))
  {
    hide CallSound, CallerSound, WorkerSound, FlightSound;
    var p' := CallerStep(p, d);
    forall t | 0 <= t < |p.calls| ensures CallSound(p', t) { CallerKeepsCalls(p, d, t); }
    forall e | 0 <= e < |p.callers| ensures CallerSound(p', e) { CallerKeepsCallers(p, d, e); }
    forall j | 0 <= j < |p.workers| ensures WorkerSound(p', j) && FlightSound(p', j) { CallerKeepsWorkers(p, d, j); }
  }

  lemma InvokeKeeps(p: Pool, d: nat, words: Words)
    requires Inv(p) && d < |p.callers| && p.callers[d].pc == Idle && |words| == WORDS
    ensures Inv(Step(p, Invoke(d, words)))
  {
    var p' := Step(p, Invoke(d, words));
    forall t | 0 <= t < |p'.calls| ensures CallSound(p', t) { assert t < |p.calls| ==> CallSound(p, t); }
    forall e | 0 <= e < |p.callers| ensures CallerSound(p', e) { assert CallerSound(p, e); }
    forall j | 0 <= j < |p.workers| ensures WorkerSound(p', j) && FlightSound(p', j) {
      assert CallerSound(p, d) && WorkerSound(p, j) && FlightSound(p, j);
    }
  }

  lemma CheckerKeeps(p: Pool, c: nat)
    requires Inv(p) && c < |p.checkers|
    ensures Inv(CheckerStep(p, c))
  {
    var p' := CheckerStep(p, c);
    forall t | 0 <= t < |p.calls| ensures CallSound(p', t) { assert CallSound(p, t); }
    forall e | 0 <= e < |p.callers| ensures CallerSound(p', e) { assert CallerSound(p, e); }
    forall j | 0 <= j < |p.workers| ensures WorkerSound(p', j) && FlightSound(p', j) {
      assert WorkerSound(p, j) && FlightSound(p, j);
    }
  }

  lemma StepKeeps(p: Pool, e: Event)
    requires Inv(p)
    ensures Inv(Step(p, e))
  {
    hide Inv, CallerStep, WorkerStep, CheckerStep;
    match e
    case Invoke(d, words) =>
      if d < |p.callers| && p.callers[d].pc == Idle && |words| == WORDS {
        InvokeKeeps(p, d, words);
      }
    case CallerMoves(d) =>
      if d < |p.callers| && p.callers[d].ticket < |p.calls| {
        CallerKeeps(p, d);
      }
    case WorkerMoves(i) =>
      if i < |p.workers| {
        WorkerKeeps(p, i);
      }
    case CheckerMoves(c) =>
      if c < |p.checkers| {
        CheckerKeeps(p, c);
      }
  }

  /** A launched task stays in its worker until it is done, and stays done. */
  lemma PlaceStays(p: Pool, e: Event, t: nat)
    requires Inv(p) && t < |p.calls|
    ensures t < |Step(p, e).calls| && |Step(p, e).workers| == |p.workers|
    ensures var place := Step(p, e).calls[t].place;
            && (p.calls[t].place == Finished ==> place == Finished)
            && (p.calls[t].place.At? ==> place == p.calls[t].place || place == Finished)
  {
    if e.CallerMoves? && e.caller < |p.callers| {
      assert CallerSound(p, e.caller);
    }
  }

  lemma PromiseStays(p: Pool, e: Event, before: set<nat>, i: nat)
    requires Inv(p) && PromisedFrom(p, before, i)
    ensures PromisedFrom(Step(p, e), before, i)
  {
    hide Inv, Step;
    forall t | t in before
      ensures t < |Step(p, e).calls| && (Step(p, e).calls[t].place == Finished ||
                (Step(p, e).calls[t].place.At? && i <= Step(p, e).calls[t].place.worker < |Step(p, e).workers|))
    {
      PlaceStays(p, e, t);
    }
  }

  /** Accepted calls are the launched ones. */
  lemma AcceptedPlaced(p: Pool, t: nat)
    requires Inv(p) && t < |p.calls|
    ensures Accepted(p, t) <==> p.calls[t].place != Nowhere
    ensures p.calls[t].place.At? ==> p.calls[t].place.worker < |p.workers| && p.workers[p.calls[t].place.worker].busy
  {
    assert CallSound(p, t);
    if p.calls[t].caller < |p.callers| {
      assert CallerSound(p, p.calls[t].caller);
    }
    if p.calls[t].place.At? {
      assert WorkerSound(p, p.calls[t].place.worker);
    }
  }

  /** A flag read as not busy rules its worker out. */
  lemma ReadOne(p: Pool, before: set<nat>, i: nat)
    requires Inv(p) && i < |p.workers| && !p.workers[i].busy && PromisedFrom(p, before, i)
    ensures PromisedFrom(p, before, i + 1)
  {
    hide Inv;
    forall t | t in before
      ensures t < |p.calls| &&
              (p.calls[t].place == Finished || (p.calls[t].place.At? && i + 1 <= p.calls[t].place.worker < |p.workers|))
    {
      AcceptedPlaced(p, t);
    }
  }

  lemma FirstRead(p: Pool)
    requires Inv(p)
    ensures PromisedFrom(p, AcceptedCalls(p), 0)
  {
    hide Inv, Accepted;
    forall t | 0 <= t < |p.calls| && Accepted(p, t)
      ensures p.calls[t].place == Finished || (p.calls[t].place.At? && p.calls[t].place.worker < |p.workers|)
    {
      AcceptedPlaced(p, t);
    }
  }

  lemma ChecksKept(p: Pool, e: Event)
    requires Inv(p) && ChecksSound(p)
    ensures ChecksSound(Step(p, e))
  {
    hide Inv, CallerStep, WorkerStep, PromisedFrom, Accepted;
    var p' := Step(p, e);
    CheckersAlone(p, e);
    forall c | 0 <= c < |p'.checkers|
      ensures CheckerSound(p', c)
    {
      assert CheckerSound(p, c);
      if e == CheckerMoves(c) && p.checkers[c].Checking? {
        var i := p.checkers[c].i;
        var before := if i == 0 then AcceptedCalls(p) else p.checkers[c].before;
        FirstRead(p);
        PromiseStays(p, e, before, i);
        if i < |p.workers| && !p.workers[i].busy {
          ReadOne(p, before, i);
          PromiseStays(p, e, before, i + 1);
        }
      } else if p.checkers[c].Checking? && p.checkers[c].i > 0 {
        PromiseStays(p, e, p.checkers[c].before, p.checkers[c].i);
      } else if p.checkers[c].Answered? && p.checkers[c].finished {
        PromiseStays(p, e, p.checkers[c].before, |p.workers|);
      }
    }
  }

  lemma CheckersAlone(p: Pool, e: Event)
    ensures var p' := Step(p, e);
            && |p'.checkers| == |p.checkers| && |p'.workers| == |p.workers|
            && forall c :: 0 <= c < |p.checkers| && e != CheckerMoves(c) ==> p'.checkers[c] == p.checkers[c]
  {
  }

  lemma {:induction false} RunKeeps(workers: nat, callers: nat, checkers: nat, events: seq<Event>)
    ensures Inv(Run(Init(workers, callers, checkers), events)) &&
            ChecksSound(Run(Init(workers, callers, checkers), events))
  {
    hide Inv, ChecksSound, Step, Init;
    if events == [] {
      InitInv(workers, callers, checkers);
    } else {
      RunKeeps(workers, callers, checkers, events[..|events| - 1]);
      StepKeeps(Run(Init(workers, callers, checkers), events[..|events| - 1]), events[|events| - 1]);
      ChecksKept(Run(Init(workers, callers, checkers), events[..|events| - 1]), events[|events| - 1]);
    }
  }

  // ---- what every interleaving promises ------------------------------------------------------

  /** The worker a call's task is on its way in. */
  predicate Holds(p: Pool, i: nat, t: nat) {
    i < |p.workers| && InFlight(p.workers[i]) && p.workers[i].ticket == t
  }

  /** However the steps interleave: a call of run_task that returned 1 has its task either
      executed exactly once, with its own argument, or waiting in exactly one worker with that
      argument intact; a call that returned 0 has its task nowhere; and no call's task is
      executed twice or with another argument. */
  lemma TasksRunOnce(workers: nat, callers: nat, checkers: nat, events: seq<Event>, t: nat)
    requires t < |Run(Init(workers, callers, checkers), events).calls|
    ensures
      var p := Run(Init(workers, callers, checkers), events);
      var call := p.calls[t];
      && (call.runs == [] || call.runs == [call.words])
      && (forall i: nat :: Holds(p, i, t) ==> p.workers[i].arg == call.words && call.runs == [])
      && (forall i: nat, j: nat :: Holds(p, i, t) && Holds(p, j, t) ==> i == j)
      && (call.returned == Some(true) ==> call.runs == [call.words] || exists i: nat :: Holds(p, i, t))
      && (call.returned == Some(false) ==> call.runs == [] && forall i: nat :: !Holds(p, i, t))
  {
    hide Run, Init;
    RunKeeps(workers, callers, checkers, events);
    var p := Run(Init(workers, callers, checkers), events);
    var call := p.calls[t];
    assert CallSound(p, t);
    forall i: nat | Holds(p, i, t)
      ensures call.place == At(i) && p.workers[i].arg == call.words
    {
      assert FlightSound(p, i);
    }
    if call.place.At? {
      assert Holds(p, call.place.worker, t);
    }
  }

  /** accepted = in flight + done, at every moment of every run, and no task is counted twice. */
  lemma Conservation(workers: nat, callers: nat, checkers: nat, events: seq<Event>)
    ensures
      var p := Run(Init(workers, callers, checkers), events);
      var accepted := AcceptedCalls(p);
      var inFlight := set i | 0 <= i < |p.workers| && InFlight(p.workers[i]) :: p.workers[i].ticket;
      var done := set t | 0 <= t < |p.calls| && p.calls[t].runs != [];
      accepted == inFlight + done && inFlight !! done
  {
    hide Run, Init;
    RunKeeps(workers, callers, checkers, events);
    var p := Run(Init(workers, callers, checkers), events);
    forall t | 0 <= t < |p.calls|
      ensures Accepted(p, t) <==> p.calls[t].place != Nowhere
      ensures p.calls[t].runs != [] <==> p.calls[t].place == Finished
    {
      assert CallSound(p, t);
      if p.calls[t].caller < |p.callers| {
        assert CallerSound(p, p.calls[t].caller);
      }
    }
    forall i | 0 <= i < |p.workers| && InFlight(p.workers[i])
      ensures p.workers[i].ticket < |p.calls| && p.calls[p.workers[i].ticket].place == At(i)
    {
      assert FlightSound(p, i);
    }
    var inFlight := set i | 0 <= i < |p.workers| && InFlight(p.workers[i]) :: p.workers[i].ticket;
    forall t | 0 <= t < |p.calls| && p.calls[t].place.At?
      ensures t in inFlight
    {
      assert CallSound(p, t);
      assert p.workers[p.calls[t].place.worker].ticket in inFlight;
    }
  }

  /** is_finished, in every interleaving with callers, workers and other checks: when it answers 1,
      every call accepted before it read the first flag has had its task executed. */
  lemma FinishedMeansExecuted(workers: nat, callers: nat, checkers: nat, events: seq<Event>, c: nat, t: nat)
    requires var p := Run(Init(workers, callers, checkers), events);
             && c < |p.checkers| && p.checkers[c].Answered? && p.checkers[c].finished && t in p.checkers[c].before
    ensures var p := Run(Init(workers, callers, checkers), events);
            t < |p.calls| && p.calls[t].runs == [p.calls[t].words]
  {
    hide Run, Init;
    RunKeeps(workers, callers, checkers, events);
    var p := Run(Init(workers, callers, checkers), events);
    assert CheckerSound(p, c) && CallSound(p, t);
  }

  lemma Advance(start: Pool, events: seq<Event>, p: Pool, e: Event) returns (events': seq<Event>, p': Pool)
    requires Run(start, events) == p
    ensures events' == events + [e] && p' == Step(p, e) && Run(start, events') == p'
  {
    hide Step;
    events', p' := events + [e], Step(p, e);
    assert events'[..|events|] == events;
  }

  lemma NoCalls(p: Pool)
    requires p.calls == []
    ensures AcceptedCalls(p) == {}
  {
  }

  /** Both workers of a pool have announced themselves and wait. */
  lemma BothWait() returns (events: seq<Event>, p: Pool)
    ensures Run(Init(2, 1, 1), events) == p
    ensures var w := Worker(true, false, [0, 0, 0], Waiting, 0);
            p == Pool([w, w], None, [Caller(Idle, 0)], [Resting], [])
  {
    hide Run;
    events, p := [], Init(2, 1, 1);
    RunNothing(p);
    events, p := Advance(Init(2, 1, 1), events, p, WorkerMoves(0));
    events, p := Advance(Init(2, 1, 1), events, p, WorkerMoves(0));
    events, p := Advance(Init(2, 1, 1), events, p, WorkerMoves(1));
    events, p := Advance(Init(2, 1, 1), events, p, WorkerMoves(1));
  }

  lemma RunNothing(p: Pool)
    ensures Run(p, []) == p
  {
  }

  /** The check has read the first flag, and then a call takes the first worker. */
  lemma TakenAfterRead() returns (events: seq<Event>, p: Pool)
    ensures Run(Init(2, 1, 1), events) == p
    ensures p == Pool([Worker(true, true, [0, 0, 0], Waiting, 0), Worker(true, false, [0, 0, 0], Waiting, 0)],
                      Some(0), [Caller(Copying(0, 0), 0)], [Checking(1, {})], [Call(0, [7, 8, 9], Nowhere, [], None)])
  {
    hide Run;
    events, p := BothWait();
    events, p := Advance(Init(2, 1, 1), events, p, CheckerMoves(0));
    NoCalls(p);
    events, p := Advance(Init(2, 1, 1), events, p, CheckerMoves(0));
    assert p.checkers == [Checking(1, {})];
    events, p := Advance(Init(2, 1, 1), events, p, Invoke(0, [7, 8, 9]));
    events, p := Advance(Init(2, 1, 1), events, p, CallerMoves(0));
    events, p := Advance(Init(2, 1, 1), events, p, CallerMoves(0));
    events, p := Advance(Init(2, 1, 1), events, p, CallerMoves(0));
  }

  /** The call has copied k of its three words. */
  function HalfCopied(k: nat, arg: Words): Pool {
    Pool([Worker(true, true, arg, Waiting, 0), Worker(true, false, [0, 0, 0], Waiting, 0)],
      Some(0), [Caller(Copying(0, k), 0)], [Checking(1, {})], [Call(0, [7, 8, 9], Nowhere, [], None)])
  }

  lemma OneWordCopied(k: nat, arg: Words)
    requires k < 3 == |arg|
    ensures Step(HalfCopied(k, arg), CallerMoves(0)) == HalfCopied(k + 1, arg[k := [7, 8, 9][k]])
  {
  }

  lemma ArgumentCopied() returns (events: seq<Event>, p: Pool)
    ensures Run(Init(2, 1, 1), events) == p == HalfCopied(3, [7, 8, 9])
  {
    hide Run, Step;
    events, p := TakenAfterRead();
    var arg := [0, 0, 0];
    for k := 0 to 3
      invariant Run(Init(2, 1, 1), events) == p == HalfCopied(k, arg)
      invariant arg == [7, 8, 9][..k] + [0, 0, 0][k..]
    {
      OneWordCopied(k, arg);
      events, p := Advance(Init(2, 1, 1), events, p, CallerMoves(0));
      arg := arg[k := [7, 8, 9][k]];
    }
    assert arg == [7, 8, 9];
  }

  /** The call has returned 1, and the check still has the second flag to read. */
  lemma ReturnedOne() returns (events: seq<Event>, p: Pool)
    ensures Run(Init(2, 1, 1), events) == p
    ensures p == Pool([Worker(false, true, [7, 8, 9], Waiting, 0), Worker(true, false, [0, 0, 0], Waiting, 0)],
                      None, [Caller(Idle, 0)], [Checking(1, {})], [Call(0, [7, 8, 9], At(0), [], Some(true))])
  {
    hide Run;
    events, p := ArgumentCopied();
    events, p := Advance(Init(2, 1, 1), events, p, CallerMoves(0));
    events, p := Advance(Init(2, 1, 1), events, p, CallerMoves(0));
  }

  /** Calls accepted while is_finished reads are not covered: here run_task has returned 1, then
      is_finished answers 1, and the task has not been executed. */
  lemma AnswerTooEarly() returns (events: seq<Event>, p: Pool)
    ensures Run(Init(2, 1, 1), events) == p
    ensures p.checkers == [Answered(true, {})]
    ensures p.calls == [Call(0, [7, 8, 9], At(0), [], Some(true))]
  {
    hide Run;
    events, p := ReturnedOne();
    events, p := Advance(Init(2, 1, 1), events, p, CheckerMoves(0));
    events, p := Advance(Init(2, 1, 1), events, p, CheckerMoves(0));
  }

  /** With no worker busy at one moment, every accepted task has been executed. */
  lemma IdleMeansExecuted(workers: nat, callers: nat, checkers: nat, events: seq<Event>)
    requires var p := Run(Init(workers, callers, checkers), events);
             forall i :: 0 <= i < |p.workers| ==> !p.workers[i].busy
    ensures var p := Run(Init(workers, callers, checkers), events);
            forall t :: 0 <= t < |p.calls| && p.calls[t].returned == Some(true) ==>
              p.calls[t].runs == [p.calls[t].words]
  {
    hide Run, Init;
    RunKeeps(workers, callers, checkers, events);
    var p := Run(Init(workers, callers, checkers), events);
    forall i | 0 <= i < |p.workers|
      ensures !InFlight(p.workers[i])
    {
      assert WorkerSound(p, i);
    }
    forall t | 0 <= t < |p.calls| && p.calls[t].returned == Some(true)
      ensures p.calls[t].runs == [p.calls[t].words]
    {
      assert CallSound(p, t);
    }
  }

  /** A worker that reads its argument never sees it change: while a task is in flight no step
      of any thread writes the worker's argument. */
  lemma ArgumentUntouched(p: Pool, e: Event, i: nat)
    requires Inv(p) && i < |p.workers| && InFlight(p.workers[i])
    ensures i < |Step(p, e).workers| && Step(p, e).workers[i].arg == p.workers[i].arg
    ensures InFlight(Step(p, e).workers[i]) ==> Step(p, e).workers[i].ticket == p.workers[i].ticket
  {
    assert WorkerSound(p, i);
    if e.CallerMoves? && e.caller < |p.callers| {
      assert CallerSound(p, e.caller);
    }
  }

  /** Only the holder of the dispatch lock scans, marks, copies or releases: two calls never
      hand out workers at the same time. */
  lemma DispatchExclusive(workers: nat, callers: nat, checkers: nat, events: seq<Event>, d: nat, e: nat)
    requires var p := Run(Init(workers, callers, checkers), events);
             && d < |p.callers| && e < |p.callers|
             && !p.callers[d].pc.Idle? && !p.callers[d].pc.Locking?
             && !p.callers[e].pc.Idle? && !p.callers[e].pc.Locking?
    ensures d == e
  {
    hide Run, Init;
    RunKeeps(workers, callers, checkers, events);
    var p := Run(Init(workers, callers, checkers), events);
    assert CallerSound(p, d) && CallerSound(p, e);
  }

  /** A launched task can always be taken up: the worker that holds it is at its lock, which is
      free, or reads its argument; its next step starts reading, reads one word more, or runs the
      task. */
  lemma LaunchedCanStart(workers: nat, callers: nat, checkers: nat, events: seq<Event>, t: nat)
    requires var p := Run(Init(workers, callers, checkers), events);
             t < |p.calls| && p.calls[t].returned == Some(true) && p.calls[t].runs == []
    ensures
      var p := Run(Init(workers, callers, checkers), events);
      exists i: nat :: Holds(p, i, t) && TakesUp(p, Step(p, WorkerMoves(i)), i, t)
  {
    hide Run, Init;
    RunKeeps(workers, callers, checkers, events);
    var p := Run(Init(workers, callers, checkers), events);
    assert CallSound(p, t);
    var i := p.calls[t].place.worker;
    assert WorkerSound(p, i) && FlightSound(p, i) && Holds(p, i, t);
    if p.workers[i].pc.Reading? && |p.workers[i].pc.got| == WORDS {
      assert p.workers[i].pc.got == p.workers[i].arg;
    }
    assert TakesUp(p, Step(p, WorkerMoves(i)), i, t);
  }

  /** One step of worker i towards the end of task t. */
  predicate TakesUp(p: Pool, p': Pool, i: nat, t: nat) {
    i < |p.workers| && i < |p'.workers| && t < |p.calls| && t < |p'.calls| &&
    match p.workers[i].pc
    case Waiting => p'.workers[i].pc == Reading([]) && p'.workers[i].locked
    case Reading(got) =>
      if |got| < WORDS then
        |p.calls[t].words| == WORDS && p'.workers[i].pc == Reading(got + [p.calls[t].words[|got|]])
      else p'.workers[i].pc == Announcing && p'.calls[t].runs == [p.calls[t].words]
    case _ => false
  }
}
