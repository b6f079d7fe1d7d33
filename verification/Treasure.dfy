/** The treasure hunt: a boss hands out jobs, miners answer over FIFO pipes, and answers to
    jobs that are no longer current may still be on their way. */
module Treasure {
  import opened Bytes
  import opened TestSet

  const ZERO: byte := 48

  /** The digest as hexadecimal text. */
  type Hash = Text -> Text

  function LeadingZeros(h: Text): (n: nat)
    ensures n <= |h|
    ensures n < |h| ==> h[n] != ZERO
    ensures forall i :: 0 <= i < n ==> h[i] == ZERO
  {
    if h == [] || h[0] != ZERO then 0 else 1 + LeadingZeros(h[1..])
  }

  /** verify: the terminator behind the digest is no zero digit; a larger number makes the code read
      past it. */
  method Verify(test: Text, num: nat) returns (past: bool, ok: bool)
    ensures past <==> num > |test|
    ensures !past ==> (ok <==> LeadingZeros(test) == num)
  {
    past, ok := num > |test|, false;
    if past {
      return;
    }
    if num < |test| && test[num] == ZERO {
      return;
    }
    var i := 0;
    while i < num
      invariant 0 <= i <= num && forall k :: 0 <= k < i ==> test[k] == ZERO
    {
      if test[i] != ZERO {
        return;
      }
      i := i + 1;
    }
    ok := true;
  }

  /** What current_treasure returns for a digest of 32 digits. */
  function FirstTarget(h: Text): nat {
    if LeadingZeros(h) < |h| then LeadingZeros(h) + 1 else |h|
  }

  method CurrentTreasure(h: Text) returns (target: nat)
    ensures target == FirstTarget(h)
  {
    var i := 0;
    while i < |h|
      invariant 0 <= i <= |h| && forall k :: 0 <= k < i ==> h[k] == ZERO
    {
      if h[i] != ZERO {
        return i + 1;
      }
      i := i + 1;
    }
    return |h|;
  }

  // ---- messages and states -------------------------------------------------------------

  datatype Job = Job(target: nat, mine: Text, miners: nat, share: nat)

  datatype Command =
    | Assign(job: Job)
    | Announce(target: nat, hash: Text)
    | Status
    | Quit

  datatype Reply = Found(target: nat, mine: Text, hash: Text)

  /** tried counts the candidates of the current job that have failed. */
  datatype Miner = Miner(work: bool, job: Job, candidate: Text, tried: nat)

  datatype System = System(
    mine: Text,
    target: nat,
    running: bool,
    miners: seq<Miner>,
    toMiner: seq<seq<Command>>,
    toBoss: seq<seq<Reply>>,
    accepted: seq<Reply>)

  datatype Event =
    | MinerReads(i: nat)
    | MinerWorks(i: nat)
    | BossReads(i: nat)
    | BossAsksStatus
    | BossQuits

  /** One command written to every miner's pipe. */
  function Broadcast(pipes: seq<seq<Command>>, c: Command): (r: seq<seq<Command>>)
    ensures |r| == |pipes| && forall i :: 0 <= i < |pipes| ==> r[i] == pipes[i] + [c]
  {
    seq(|pipes|, i requires 0 <= i < |pipes| => pipes[i] + [c])
  }

  /** assign_jobs. */
  function AssignJobs(pipes: seq<seq<Command>>, target: nat, mine: Text): (r: seq<seq<Command>>)
    ensures |r| == |pipes|
    ensures forall i :: 0 <= i < |pipes| ==> r[i] == pipes[i] + [Assign(Job(target, mine, |pipes|, i))]
  {
    seq(|pipes|, i requires 0 <= i < |pipes| => pipes[i] + [Assign(Job(target, mine, |pipes|, i))])
  }

  /** The boss at work: it reads the mine, sets the first target and assigns the first jobs. */
  function Start(md5: Hash, mine: Text, n: nat): System {
    var target := FirstTarget(md5(mine));
    System(mine, target, true,
      seq(n, i => Miner(false, Job(0, [], 0, 0), [], 0)),
      AssignJobs(seq(n, i => []), target, mine),
      seq(n, i => []),
      [])
  }

  /** A miner's answer to one command. */
  function Obey(m: Miner, c: Command): Miner {
    match c
    case Assign(job) =>
      if 0 < job.miners && Lower(job.share, job.miners) < 256
      then Miner(true, job, [Lower(job.share, job.miners)], 0)
      else m
    case Announce(_, _) => m.(work := false)
    case Status => m
    case Quit => m.(work := false)
  }

  /** The text a candidate is tried in: strncat stops at a NUL. */
  function Tried(job: Job, candidate: Text): Text {
    job.mine + CString(candidate)
  }

  /** The shares the miners count in. */
  predicate ShareValid(job: Job) {
    0 < job.miners <= 256 && job.share < job.miners
  }

  /** One candidate: reported if it has exactly the leading zeros asked for, or counted on. */
  function Work(md5: Hash, m: Miner): (r: (Miner, seq<Reply>)) {
    var text := Tried(m.job, m.candidate);
    if LeadingZeros(md5(text)) == m.job.target then
      (m.(work := false), [Found(m.job.target, text, md5(text))])
    else if ShareValid(m.job) && Lower(m.job.share, m.job.miners) < Higher(m.job.share, m.job.miners) <= 256
      && Candidate(m.candidate, Lower(m.job.share, m.job.miners), Higher(m.job.share, m.job.miners)) then
      (m.(candidate := Next(m.candidate, Lower(m.job.share, m.job.miners), Higher(m.job.share, m.job.miners)),
          tried := m.tried + 1), [])
    else (m, [])
  }

  /** The boss reads a reply: one for the current target is accepted, any other is dropped. */
  function Accept(s: System, r: Reply): System {
    if r.target == s.target then
      s.(target := s.target + 1, mine := r.mine, accepted := s.accepted + [r],
         toMiner := AssignJobs(Broadcast(s.toMiner, Announce(r.target, r.hash)), s.target + 1, r.mine))
    else s
  }

  /** One event; an event that cannot happen changes nothing. */
  function Step(md5: Hash, s: System, e: Event): System {
    match e
    case MinerReads(i) =>
      if i < |s.miners| && i < |s.toMiner| && s.toMiner[i] != [] then
        s.(miners := s.miners[i := Obey(s.miners[i], s.toMiner[i][0])], toMiner := s.toMiner[i := s.toMiner[i][1..]])
      else s
    case MinerWorks(i) =>
      if i < |s.miners| && i < |s.toBoss| && s.miners[i].work then
        var (m, replies) := Work(md5, s.miners[i]);
        s.(miners := s.miners[i := m], toBoss := s.toBoss[i := s.toBoss[i] + replies])
      else s
    case BossReads(i) =>
      if s.running && i < |s.toBoss| && s.toBoss[i] != [] then
        Accept(s.(toBoss := s.toBoss[i := s.toBoss[i][1..]]), s.toBoss[i][0])
      else s
    case BossAsksStatus => if s.running then s.(toMiner := Broadcast(s.toMiner, Status)) else s
    case BossQuits => if s.running then s.(running := false, toMiner := Broadcast(s.toMiner, Quit)) else s
  }

  function Run(md5: Hash, s: System, events: seq<Event>): System {
    if events == [] then s
    else Step(md5, Run(md5, s, events[..|events| - 1]), events[|events| - 1])
  }

  // ---- the invariant -------------------------------------------------------------------

  /** The mine that was current when `target` was: the one a target's only jobs were handed
      out with. */
  function MineAt(first: Text, start: nat, accepted: seq<Reply>, target: nat): Text
    requires start <= target <= start + |accepted|
  {
    if target == start then first else accepted[target - start - 1].mine
  }

  predicate JobCurrent(first: Text, start: nat, s: System, job: Job, i: nat) {
    && start <= job.target <= s.target == start + |s.accepted|
    && job.mine == MineAt(first, start, s.accepted, job.target)
    && job.miners == |s.miners| && job.share == i
  }

  /** None of the first `tried` candidates of the job has the leading zeros asked for. */
  predicate AllFailed(md5: Hash, job: Job, tried: nat, low: byte, high: nat)
    requires low < high <= 256
  {
    forall t: nat :: t < tried ==> LeadingZeros(md5(Tried(job, Visited(t, low, high)))) != job.target
  }

  /** A working miner has tried its share in order, and in vain so far. */
  predicate MinerSound(md5: Hash, first: Text, start: nat, s: System, i: nat)
    requires i < |s.miners| && 0 < |s.miners| <= 256
  {
    var m := s.miners[i];
    m.work ==>
      && JobCurrent(first, start, s, m.job, i)
      && Lower(i, |s.miners|) < Higher(i, |s.miners|) <= 256
      && m.candidate == Visited(m.tried, Lower(i, |s.miners|), Higher(i, |s.miners|))
      && AllFailed(md5, m.job, m.tried, Lower(i, |s.miners|), Higher(i, |s.miners|))
  }

  predicate ReplySound(md5: Hash, first: Text, start: nat, s: System, r: Reply) {
    && start <= r.target <= s.target == start + |s.accepted|
    && MineAt(first, start, s.accepted, r.target) <= r.mine
    && r.hash == md5(r.mine) && LeadingZeros(r.hash) == r.target
  }

  predicate CommandSound(first: Text, start: nat, s: System, c: Command, i: nat) {
    c.Assign? ==> JobCurrent(first, start, s, c.job, i)
  }

  /** The j-th accepted mine: it has its target's zeros and extends the mine before it. */
  predicate LinkSound(md5: Hash, first: Text, start: nat, accepted: seq<Reply>, j: nat)
    requires j < |accepted|
  {
    && accepted[j].target == start + j
    && MineAt(first, start, accepted, start + j) <= accepted[j].mine
    && accepted[j].hash == md5(accepted[j].mine) && LeadingZeros(accepted[j].hash) == start + j
  }

  predicate ChainSound(md5: Hash, first: Text, start: nat, accepted: seq<Reply>) {
    forall j :: 0 <= j < |accepted| ==> LinkSound(md5, first, start, accepted, j)
  }

  predicate PipesSound(first: Text, start: nat, s: System) {
    |s.toMiner| == |s.miners| &&
    forall i, k :: 0 <= i < |s.toMiner| && 0 <= k < |s.toMiner[i]| ==> CommandSound(first, start, s, s.toMiner[i][k], i)
  }

  predicate RepliesSound(md5: Hash, first: Text, start: nat, s: System) {
    |s.toBoss| == |s.miners| &&
    forall i, k :: 0 <= i < |s.toBoss| && 0 <= k < |s.toBoss[i]| ==> ReplySound(md5, first, start, s, s.toBoss[i][k])
  }

  predicate MinersSound(md5: Hash, first: Text, start: nat, s: System)
    requires 0 < |s.miners| <= 256
  {
    forall i :: 0 <= i < |s.miners| ==> MinerSound(md5, first, start, s, i)
  }

  predicate Inv(md5: Hash, first: Text, start: nat, n: nat, s: System) {
    && 0 < n == |s.miners| <= 256
    && s.target == start + |s.accepted| && s.mine == MineAt(first, start, s.accepted, s.target)
    && ChainSound(md5, first, start, s.accepted)
    && PipesSound(first, start, s) && RepliesSound(md5, first, start, s) && MinersSound(md5, first, start, s)
  }

  lemma StartInv(md5: Hash, mine: Text, n: nat)
    requires 0 < n <= 256
    ensures Inv(md5, mine, FirstTarget(md5(mine)), n, Start(md5, mine, n))
  {
  }

  /** Reading a command. */
  lemma MinerReadsKeeps(md5: Hash, first: Text, start: nat, n: nat, s: System, i: nat)
    requires Inv(md5, first, start, n, s) && i < |s.miners| && s.toMiner[i] != []
    ensures Inv(md5, first, start, n, Step(md5, s, MinerReads(i)))
  {
    var s' := Step(md5, s, MinerReads(i));
    var c := s.toMiner[i][0];
    assert CommandSound(first, start, s, c, i);
    forall j | 0 <= j < n
      ensures MinerSound(md5, first, start, s', j)
    {
      assert MinerSound(md5, first, start, s, j);
      if j == i && c.Assign? {
        ShareBounds(i, n);
      }
    }
    forall j, k | 0 <= j < n && 0 <= k < |s'.toMiner[j]|
      ensures CommandSound(first, start, s', s'.toMiner[j][k], j)
    {
      if j == i {
        assert s'.toMiner[j][k] == s.toMiner[i][k + 1];
      }
      assert CommandSound(first, start, s, s'.toMiner[j][k], j);
    }
    assert forall j, k :: 0 <= j < n && 0 <= k < |s.toBoss[j]| ==> ReplySound(md5, first, start, s, s.toBoss[j][k]);
  }

  /** Trying a candidate: a sound miner stays sound, and reports only what it found. */
  lemma WorkSound(md5: Hash, first: Text, start: nat, n: nat, s: System, i: nat)
    requires Inv(md5, first, start, n, s) && i < n && s.miners[i].work
    ensures var (m, replies) := Work(md5, s.miners[i]);
            && (m.work ==> (
                  && m.job == s.miners[i].job
                  && Lower(i, n) < Higher(i, n) <= 256 && m.candidate == Visited(m.tried, Lower(i, n), Higher(i, n))
                  && AllFailed(md5, m.job, m.tried, Lower(i, n), Higher(i, n))))
            && forall k :: 0 <= k < |replies| ==> ReplySound(md5, first, start, s, replies[k])
  {
    hide ChainSound, RepliesSound, PipesSound, Lower, Higher, Next, LeadingZeros, Tried, Visited, AllFailed;
    assert MinerSound(md5, first, start, s, i);
    var m := s.miners[i];
    var low, high := Lower(i, n), Higher(i, n);
    if LeadingZeros(md5(Tried(m.job, m.candidate))) == m.job.target {
      assert m.job.mine <= Tried(m.job, m.candidate) by {
        TriedExtends(m.job, m.candidate);
      }
    } else {
      OneMore(md5, m.job, m.tried, low, high);
    }
  }

  /** A candidate is tried as itself exactly when it holds no NUL; any other is tried as the part
      before its first one. */
  lemma TriedAsItself(job: Job, candidate: Text)
    ensures Tried(job, candidate) == job.mine + candidate <==> NulFree(candidate)
  {
    CStringIsNulFree(candidate);
    assert (job.mine + candidate)[|job.mine|..] == candidate;
    assert Tried(job, candidate)[|job.mine|..] == CString(candidate);
    if NulFree(candidate) {
      CStringIdentity(candidate);
    }
  }

  lemma TriedExtends(job: Job, candidate: Text)
    ensures job.mine <= Tried(job, candidate)
  {
  }

  lemma OneMore(md5: Hash, job: Job, tried: nat, low: byte, high: nat)
    requires low < high <= 256 && AllFailed(md5, job, tried, low, high)
    requires LeadingZeros(md5(Tried(job, Visited(tried, low, high)))) != job.target
    ensures AllFailed(md5, job, tried + 1, low, high)
    ensures Visited(tried + 1, low, high) == Next(Visited(tried, low, high), low, high)
  {
    hide LeadingZeros, Tried, Next;
  }

  lemma MinerWorksKeeps(md5: Hash, first: Text, start: nat, n: nat, s: System, i: nat)
    requires Inv(md5, first, start, n, s) && i < |s.miners| && s.miners[i].work
    ensures Inv(md5, first, start, n, Step(md5, s, MinerWorks(i)))
  {
    hide Work, AllFailed, ChainSound;
    WorkSound(md5, first, start, n, s, i);
    var s' := Step(md5, s, MinerWorks(i));
    var (m, replies) := Work(md5, s.miners[i]);
    forall j | 0 <= j < n
      ensures MinerSound(md5, first, start, s', j)
    {
      assert MinerSound(md5, first, start, s, j);
    }
    forall j, k | 0 <= j < n && 0 <= k < |s'.toMiner[j]|
      ensures CommandSound(first, start, s', s'.toMiner[j][k], j)
    {
      assert CommandSound(first, start, s, s.toMiner[j][k], j);
    }
    forall j, k | 0 <= j < n && 0 <= k < |s'.toBoss[j]|
      ensures ReplySound(md5, first, start, s', s'.toBoss[j][k])
    {
      if k < |s.toBoss[j]| {
        assert ReplySound(md5, first, start, s, s.toBoss[j][k]);
      } else {
        assert s'.toBoss[j][k] == replies[k - |s.toBoss[j]|];
      }
    }
  }

  /** Taking a reply from its pipe. */
  lemma TakeKeeps(md5: Hash, first: Text, start: nat, n: nat, s: System, i: nat)
    requires Inv(md5, first, start, n, s) && i < |s.miners| && s.toBoss[i] != []
    ensures Inv(md5, first, start, n, s.(toBoss := s.toBoss[i := s.toBoss[i][1..]]))
    ensures ReplySound(md5, first, start, s, s.toBoss[i][0])
  {
    hide AllFailed, ChainSound;
    var s' := s.(toBoss := s.toBoss[i := s.toBoss[i][1..]]);
    forall j | 0 <= j < n
      ensures MinerSound(md5, first, start, s', j)
    {
      assert MinerSound(md5, first, start, s, j);
    }
    forall j, k | 0 <= j < n && 0 <= k < |s'.toMiner[j]|
      ensures CommandSound(first, start, s', s'.toMiner[j][k], j)
    {
      assert CommandSound(first, start, s, s.toMiner[j][k], j);
    }
    forall j, k | 0 <= j < n && 0 <= k < |s'.toBoss[j]|
      ensures ReplySound(md5, first, start, s', s'.toBoss[j][k])
    {
      assert s'.toBoss[j][k] == s.toBoss[j][if j == i then k + 1 else k];
    }
  }

  lemma ChainExtends(md5: Hash, first: Text, start: nat, accepted: seq<Reply>, r: Reply)
    requires ChainSound(md5, first, start, accepted)
    requires r.target == start + |accepted| && MineAt(first, start, accepted, r.target) <= r.mine
    requires r.hash == md5(r.mine) && LeadingZeros(r.hash) == r.target
    ensures ChainSound(md5, first, start, accepted + [r])
  {
    hide LeadingZeros;
    forall j | 0 <= j < |accepted + [r]|
      ensures LinkSound(md5, first, start, accepted + [r], j)
    {
      assert j < |accepted| ==> LinkSound(md5, first, start, accepted, j);
    }
  }

  /** Accepting a reply ends the jobs of its target; every older job and reply stays what it was. */
  lemma AcceptKeeps(md5: Hash, first: Text, start: nat, n: nat, s: System, r: Reply)
    requires Inv(md5, first, start, n, s) && ReplySound(md5, first, start, s, r)
    ensures Inv(md5, first, start, n, Accept(s, r))
  {
    hide AllFailed, LinkSound, LeadingZeros;
    var s' := Accept(s, r);
    if r.target == s.target {
      ChainExtends(md5, first, start, s.accepted, r);
      assert forall t :: start <= t <= s.target ==>
             MineAt(first, start, s'.accepted, t) == MineAt(first, start, s.accepted, t);
      forall j | 0 <= j < n
        ensures MinerSound(md5, first, start, s', j)
      {
        assert MinerSound(md5, first, start, s, j);
      }
      forall j, k | 0 <= j < n && 0 <= k < |s'.toMiner[j]|
        ensures CommandSound(first, start, s', s'.toMiner[j][k], j)
      {
        if k < |s.toMiner[j]| {
          assert CommandSound(first, start, s, s.toMiner[j][k], j);
        }
      }
      forall j, k | 0 <= j < n && 0 <= k < |s'.toBoss[j]|
        ensures ReplySound(md5, first, start, s', s'.toBoss[j][k])
      {
        assert ReplySound(md5, first, start, s, s.toBoss[j][k]);
      }
    }
  }

  /** Writing a command that is no job to every miner. */
  lemma BroadcastKeeps(md5: Hash, first: Text, start: nat, n: nat, s: System, c: Command, running: bool)
    requires Inv(md5, first, start, n, s) && !c.Assign?
    ensures Inv(md5, first, start, n, s.(running := running, toMiner := Broadcast(s.toMiner, c)))
  {
    hide AllFailed, ChainSound;
    var s' := s.(running := running, toMiner := Broadcast(s.toMiner, c));
    forall j | 0 <= j < n
      ensures MinerSound(md5, first, start, s', j)
    {
      assert MinerSound(md5, first, start, s, j);
    }
    forall j, k | 0 <= j < n && 0 <= k < |s'.toMiner[j]|
      ensures CommandSound(first, start, s', s'.toMiner[j][k], j)
    {
      if k < |s.toMiner[j]| {
        assert CommandSound(first, start, s, s.toMiner[j][k], j);
      }
    }
    forall j, k | 0 <= j < n && 0 <= k < |s'.toBoss[j]|
      ensures ReplySound(md5, first, start, s', s'.toBoss[j][k])
    {
      assert ReplySound(md5, first, start, s, s.toBoss[j][k]);
    }
  }

  lemma StepKeeps(md5: Hash, first: Text, start: nat, n: nat, s: System, e: Event)
    requires Inv(md5, first, start, n, s)
    ensures Inv(md5, first, start, n, Step(md5, s, e))
  {
    hide Inv, Work, Accept, Obey;
    InvPipes(md5, first, start, n, s);
    match e
    case MinerReads(i) =>
      if i < n && s.toMiner[i] != [] {
        MinerReadsKeeps(md5, first, start, n, s, i);
      }
    case MinerWorks(i) =>
      if i < n && s.miners[i].work {
        MinerWorksKeeps(md5, first, start, n, s, i);
      }
    case BossReads(i) =>
      if s.running && i < n && s.toBoss[i] != [] {
        TakeKeeps(md5, first, start, n, s, i);
        AcceptKeeps(md5, first, start, n, s.(toBoss := s.toBoss[i := s.toBoss[i][1..]]), s.toBoss[i][0]);
      }
    case BossAsksStatus => BroadcastKeeps(md5, first, start, n, s, Status, s.running);
    case BossQuits => BroadcastKeeps(md5, first, start, n, s, Quit, false);
  }

  lemma InvPipes(md5: Hash, first: Text, start: nat, n: nat, s: System)
    requires Inv(md5, first, start, n, s)
    ensures n == |s.miners| == |s.toMiner| == |s.toBoss|
  {
  }

  lemma {:induction false} RunKeeps(md5: Hash, mine: Text, n: nat, events: seq<Event>)
    requires 0 < n <= 256
    ensures Inv(md5, mine, FirstTarget(md5(mine)), n, Run(md5, Start(md5, mine, n), events))
  {
    hide Inv, Step;
    if events == [] {
      StartInv(md5, mine, n);
    } else {
      RunKeeps(md5, mine, n, events[..|events| - 1]);
      StepKeeps(md5, mine, FirstTarget(md5(mine)), n, Run(md5, Start(md5, mine, n), events[..|events| - 1]),
        events[|events| - 1]);
    }
  }

  // ---- what every run promises -------------------------------------------------------------

  /** In every run the accepted targets are start, start + 1, ..., one each; every accepted mine
      has exactly its target's leading zeros and extends the mine accepted before it; and the
      target is one more than the zeros of the mine, unless the mine is still the first one and
      its digest is all zeros. */
  lemma ChainSafety(md5: Hash, mine: Text, n: nat, events: seq<Event>)
    requires 0 < n <= 256
    ensures
      var s := Run(md5, Start(md5, mine, n), events);
      var start := FirstTarget(md5(mine));
      && s.target == start + |s.accepted|
      && (forall j :: 0 <= j < |s.accepted| ==>
            LinkSound(md5, mine, start, s.accepted, j) && s.accepted[j].mine <= s.mine)
      && mine <= s.mine
      && (s.target == LeadingZeros(md5(s.mine)) + 1
          || (s.accepted == [] && s.mine == mine && LeadingZeros(md5(mine)) == |md5(mine)| == s.target))
  {
    hide Run, PipesSound, RepliesSound, MinersSound, LeadingZeros, Start;
    RunKeeps(md5, mine, n, events);
    var s := Run(md5, Start(md5, mine, n), events);
    var start := FirstTarget(md5(mine));
    forall j | 0 <= j < |s.accepted|
      ensures LinkSound(md5, mine, start, s.accepted, j) && s.accepted[j].mine <= s.mine
    {
      MinesGrow(md5, mine, start, s.accepted, start + j + 1, start + |s.accepted|);
    }
    MinesGrow(md5, mine, start, s.accepted, start, start + |s.accepted|);
  }

  lemma {:induction false} MinesGrow(md5: Hash, first: Text, start: nat, accepted: seq<Reply>, a: nat, b: nat)
    requires ChainSound(md5, first, start, accepted) && start <= a <= b <= start + |accepted|
    ensures MineAt(first, start, accepted, a) <= MineAt(first, start, accepted, b)
    decreases b - a
  {
    if a < b {
      MinesGrow(md5, first, start, accepted, a, b - 1);
      assert LinkSound(md5, first, start, accepted, b - 1 - start);
    }
  }

  /** In every run the target goes beyond the 32 digits of a digest exactly when a mine with an
      all-zero digest has been accepted, and a working miner's next comparison reads past the
      digest exactly when its job is for that target. */
  lemma TargetPastIff(md5: Hash, mine: Text, n: nat, events: seq<Event>)
    requires 0 < n <= 256 && forall t :: |md5(t)| == 32
    ensures
      var s := Run(md5, Start(md5, mine, n), events);
      && (s.target > 32 <==> s.accepted != [] && LeadingZeros(md5(s.mine)) == 32)
      && |s.miners| == n
      && forall i :: 0 <= i < n && s.miners[i].work ==>
           var m := s.miners[i];
           m.job.target > |md5(Tried(m.job, m.candidate))| <==> s.target > 32 && m.job.target == s.target
  {
    hide Run, LeadingZeros, ChainSound, PipesSound, RepliesSound, AllFailed, Tried, Lower, Higher;
    RunKeeps(md5, mine, n, events);
    ChainSafety(md5, mine, n, events);
    var s := Run(md5, Start(md5, mine, n), events);
    forall i | 0 <= i < n && s.miners[i].work
      ensures s.miners[i].job.target <= s.target <= 33
    {
      assert MinerSound(md5, mine, FirstTarget(md5(mine)), s, i);
    }
  }

  /** A digest of nothing but zeros, for every text. */
  function ZeroDigest(): Hash {
    t => seq(32, _ => ZERO)
  }

  lemma ZeroDigestZeros(t: Text)
    ensures LeadingZeros(ZeroDigest()(t)) == 32
  {
    var h := ZeroDigest()(t);
    assert forall i :: 0 <= i < |h| ==> h[i] == ZERO;
  }

  lemma Advance(md5: Hash, start: System, events: seq<Event>, s: System, e: Event)
    returns (events': seq<Event>, s': System)
    requires Run(md5, start, events) == s
    ensures events' == events + [e] && s' == Step(md5, s, e) && Run(md5, start, events') == s'
  {
    hide Step;
    events', s' := events + [e], Step(md5, s, e);
    assert events'[..|events|] == events;
  }

  /** Such a run: with a digest of nothing but zeros the first candidate is accepted, and the only
      miner is at work on target 33, where its next comparison reads past the digest. */
  lemma ReadsPastDigest() returns (events: seq<Event>, s: System)
    ensures s == Run(ZeroDigest(), Start(ZeroDigest(), [], 1), events) && s.target == 33
    ensures |s.miners| == 1 && s.miners[0].work
    ensures s.miners[0].job.target > |ZeroDigest()(Tried(s.miners[0].job, s.miners[0].candidate))|
  {
    hide Run, LeadingZeros, Start;
    var r;
    events, s, r := AcceptedZeros();
    events, s := Advance(ZeroDigest(), Start(ZeroDigest(), [], 1), events, s, MinerReads(0));
    events, s := Advance(ZeroDigest(), Start(ZeroDigest(), [], 1), events, s, MinerReads(0));
  }

  lemma ZeroStart()
    ensures Start(ZeroDigest(), [], 1) ==
            System([], 32, true, [Miner(false, Job(0, [], 0, 0), [], 0)], [[Assign(Job(32, [], 1, 0))]], [[]], [])
  {
    hide LeadingZeros;
    ZeroDigestZeros([]);
    var s := Start(ZeroDigest(), [], 1);
    assert s.toMiner[0] == [Assign(Job(32, [], 1, 0))];
  }

  /** The first candidate is found and reported. */
  lemma ReportedZeros() returns (events: seq<Event>, s: System, r: Reply)
    ensures s == Run(ZeroDigest(), Start(ZeroDigest(), [], 1), events)
    ensures r.target == s.target == 32 && s.running && |s.miners| == 1 && s.toMiner == [[]] && s.toBoss == [[r]]
  {
    hide Run, LeadingZeros, Start, ZeroDigest;
    events, s := [], Start(ZeroDigest(), [], 1);
    RunNothing(s);
    ZeroStart();
    events, s := Advance(ZeroDigest(), Start(ZeroDigest(), [], 1), events, s, MinerReads(0));
    assert s.toMiner[0] == [];
    ZeroDigestZeros(Tried(s.miners[0].job, s.miners[0].candidate));
    events, s := Advance(ZeroDigest(), Start(ZeroDigest(), [], 1), events, s, MinerWorks(0));
    r := s.toBoss[0][0];
    assert s.toBoss[0] == [r];
  }

  lemma AcceptedZeros() returns (events: seq<Event>, s: System, r: Reply)
    ensures s == Run(ZeroDigest(), Start(ZeroDigest(), [], 1), events)
    ensures s.target == 33 && |s.miners| == 1
    ensures s.toMiner == [[Announce(32, r.hash), Assign(Job(33, r.mine, 1, 0))]]
  {
    hide Run, LeadingZeros, Start, ZeroDigest;
    events, s, r := ReportedZeros();
    events, s := Advance(ZeroDigest(), Start(ZeroDigest(), [], 1), events, s, BossReads(0));
    assert s.toMiner[0] == [Announce(32, r.hash), Assign(Job(33, r.mine, 1, 0))];
  }

  lemma RunNothing(s: System)
    ensures Run(ZeroDigest(), s, []) == s
  {
  }

  /** An accepted mine is strictly longer than the one before it, the first one excepted when
      the digest it starts from is all zeros. */
  lemma ChainGrows(md5: Hash, mine: Text, n: nat, events: seq<Event>, j: nat)
    requires 0 < n <= 256 && j < |Run(md5, Start(md5, mine, n), events).accepted|
    requires j > 0 || LeadingZeros(md5(mine)) < |md5(mine)|
    ensures var accepted := Run(md5, Start(md5, mine, n), events).accepted;
            (if j == 0 then mine else accepted[j - 1].mine) < accepted[j].mine
  {
    hide Run;
    ChainSafety(md5, mine, n, events);
    var accepted := Run(md5, Start(md5, mine, n), events).accepted;
    var before := if j == 0 then mine else accepted[j - 1].mine;
    assert LinkSound(md5, mine, FirstTarget(md5(mine)), accepted, j);
    assert j > 0 ==> LinkSound(md5, mine, FirstTarget(md5(mine)), accepted, j - 1);
    assert LeadingZeros(md5(before)) != LeadingZeros(md5(accepted[j].mine));
    ProperPrefix(before, accepted[j].mine);
  }

  lemma ProperPrefix(a: Text, b: Text)
    requires a <= b && a != b
    ensures a < b
  {
    assert b[..|a|] == a;
  }

  /** In every run a working miner has tried, in vain, every candidate of its share that comes
      before the one it holds, each in the mine its job was handed out with. */
  lemma MinersSkipNothing(md5: Hash, mine: Text, n: nat, events: seq<Event>, i: nat, c: Text)
    requires 0 < n <= 256 && i < n && c != [] && ShareOf(c[0], n) == i
    ensures
      var m := Run(md5, Start(md5, mine, n), events).miners;
      && |m| == n && Lower(i, n) < Higher(i, n) <= 256 && Candidate(c, Lower(i, n), Higher(i, n))
      && (m[i].work ==> m[i].candidate == Visited(m[i].tried, Lower(i, n), Higher(i, n)))
      && (m[i].work && Rank(c, Lower(i, n), Higher(i, n)) < m[i].tried ==>
            LeadingZeros(md5(Tried(m[i].job, c))) != m[i].job.target)
  {
    hide Run;
    RunKeeps(md5, mine, n, events);
    var s := Run(md5, Start(md5, mine, n), events);
    ShareBounds(i, n);
    SharesPartition(c[0], n, i);
    assert MinerSound(md5, mine, FirstTarget(md5(mine)), s, i);
    VisitedOnce(c, Rank(c, Lower(i, n), Higher(i, n)), Lower(i, n), Higher(i, n));
  }

  /** A reply that is not for the current target is read and changes nothing else; in every run
      such a reply is for a target already accepted. */
  lemma StaleReplyDropped(md5: Hash, mine: Text, n: nat, events: seq<Event>, i: nat)
    requires 0 < n <= 256
    requires var s := Run(md5, Start(md5, mine, n), events);
             s.running && i < |s.toBoss| && s.toBoss[i] != [] && s.toBoss[i][0].target != s.target
    ensures
      var s := Run(md5, Start(md5, mine, n), events);
      var r := s.toBoss[i][0];
      && Run(md5, Start(md5, mine, n), events + [BossReads(i)]) == s.(toBoss := s.toBoss[i := s.toBoss[i][1..]])
      && exists j :: 0 <= j < |s.accepted| && s.accepted[j].target == r.target
  {
    hide FirstTarget, LeadingZeros, MinersSound, PipesSound, Start;
    var s := Run(md5, Start(md5, mine, n), events);
    RunKeeps(md5, mine, n, events);
    assert (events + [BossReads(i)])[..|events|] == events;
    var start := FirstTarget(md5(mine));
    assert ReplySound(md5, mine, start, s, s.toBoss[i][0]);
    assert LinkSound(md5, mine, start, s.accepted, s.toBoss[i][0].target - start);
  }

  // ---- the programs ---------------------------------------------------------------------

  /** The boss: its mine, its target, and the pipes it writes to. */
  class Boss {
    var mine: Text
    var target: nat
    const pipes: array<seq<Command>>

    constructor (md5: Hash, mine: Text, n: nat)
      ensures fresh(pipes) && this.mine == mine && target == Start(md5, mine, n).target
      ensures pipes[..] == Start(md5, mine, n).toMiner
    {
      this.mine := mine;
      pipes := new seq<Command>[n](_ => []);
      target := 0;
      new;
      target := CurrentTreasure(md5(mine));
      assert pipes[..] == seq(n, _ => []);
      GiveJobs();
    }

    /** assign_jobs. */
    method GiveJobs()
      modifies pipes
      ensures pipes[..] == AssignJobs(old(pipes[..]), target, mine)
    {
      var i := 0;
      while i < pipes.Length
        invariant i <= pipes.Length
        invariant forall k {:trigger pipes[k]} :: 0 <= k < i ==>
                    pipes[k] == old(pipes[k]) + [Assign(Job(target, mine, pipes.Length, k))]
        invariant forall k {:trigger pipes[k]} :: i <= k < pipes.Length ==> pipes[k] == old(pipes[k])
      {
        pipes[i] := pipes[i] + [Assign(Job(target, mine, pipes.Length, i))];
        i := i + 1;
      }
    }

    method Tell(c: Command)
      modifies pipes
      ensures pipes[..] == Broadcast(old(pipes[..]), c)
    {
      var i := 0;
      while i < pipes.Length
        invariant i <= pipes.Length
        invariant forall k {:trigger pipes[k]} :: 0 <= k < i ==> pipes[k] == old(pipes[k]) + [c]
        invariant forall k {:trigger pipes[k]} :: i <= k < pipes.Length ==> pipes[k] == old(pipes[k])
      {
        pipes[i] := pipes[i] + [c];
        i := i + 1;
      }
    }

    /** A reply read from a miner's pipe. */
    method Handle(r: Reply, ghost s: System)
      requires s.mine == mine && s.target == target && s.toMiner == pipes[..]
      modifies this, pipes
      ensures var s' := Accept(s, r); mine == s'.mine && target == s'.target && pipes[..] == s'.toMiner
    {
      if r.target == target {
        target := target + 1;
        Tell(Announce(r.target, r.hash));
        mine := r.mine;
        GiveJobs();
      }
    }
  }

  /** A miner: its job, its counter and whether it works. */
  class Digger {
    var work: bool
    var job: Job
    var test: Counter
    ghost var tried: nat

    constructor ()
      ensures Valid() && !work
    {
      work := false;
      job := Job(0, [], 0, 0);
      test := new Counter(0);
      tried := 0;
    }

    ghost predicate Valid()
      reads this, test, test.set_
    {
      test.Valid() && (work ==> ShareValid(job) && (test.digit <= PATH_MAX ==>
          Candidate(test.Contents(), Lower(job.share, job.miners), Higher(job.share, job.miners))))
    }

    ghost function State(): Miner
      requires Valid() && test.digit <= PATH_MAX
      reads this, test, test.set_
    {
      Miner(work, job, test.Contents(), tried)
    }

    /** A command read from the boss's pipe. */
    method Read(c: Command)
      requires Valid() && test.digit <= PATH_MAX
      requires c.Assign? ==> ShareValid(c.job)
      modifies this
      ensures Valid() && test.digit <= PATH_MAX && State() == Obey(old(State()), c)
    {
      if c.Assign? {
        ShareBounds(c.job.share, c.job.miners);
        work := true;
        job := c.job;
        tried := 0;
        test := new Counter(Lower(c.job.share, c.job.miners));
      } else if c.Announce? || c.Quit? {
        work := false;
      }
    }

    /** One candidate. The counter may outgrow its array, which only the next candidate would
        notice. */
    method TryOne(md5: Hash) returns (past: bool, replies: seq<Reply>)
      requires Valid() && work && test.digit <= PATH_MAX
      modifies this, test, test.set_
      ensures past <==> old(job.target) > |md5(Tried(old(job), old(test.Contents())))|
      ensures !past ==> Valid() && replies == Work(md5, old(State())).1
      ensures !past && test.digit <= PATH_MAX ==> State() == Work(md5, old(State())).0
    {
      ShareBounds(job.share, job.miners);
      var lower, higher := Lower(job.share, job.miners), Higher(job.share, job.miners);
      var text := job.mine + CString(test.set_[..test.digit]);
      var hash := md5(text);
      var found;
      past, found := Verify(hash, job.target);
      if past {
        return past, [];
      }
      if found {
        work := false;
        replies := [Found(job.target, text, hash)];
      } else {
        test.Step(lower, higher);
        tried := tried + 1;
        replies := [];
      }
    }
  }
}
