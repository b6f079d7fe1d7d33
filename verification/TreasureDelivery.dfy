/** What becomes of the messages of the treasure hunt: every miner gets every job, what is found is
    reported, what is reported is used, and nobody works on after quitting. */
module TreasureDelivery {
  import opened Bytes
  import opened TestSet
  import opened Treasure
  import opened Wrappers

  // ---- what was read ---------------------------------------------------------------------------

  function ReadIn(s: System, e: Event, i: nat): seq<Command> {
    if e == MinerReads(i) && i < |s.miners| && i < |s.toMiner| && s.toMiner[i] != [] then [s.toMiner[i][0]] else []
  }

  /** The commands that miner i has read in a run. */
  function ReadBy(md5: Hash, s: System, events: seq<Event>, i: nat): seq<Command> {
    if events == [] then []
    else
      var before := events[..|events| - 1];
      ReadBy(md5, s, before, i) + ReadIn(Run(md5, s, before), events[|events| - 1], i)
  }

  function TakenIn(s: System, e: Event, i: nat): seq<Reply> {
    if e == BossReads(i) && s.running && i < |s.toBoss| && s.toBoss[i] != [] then [s.toBoss[i][0]] else []
  }

  /** The replies that the boss has read from miner i. */
  function TakenFrom(md5: Hash, s: System, events: seq<Event>, i: nat): seq<Reply> {
    if events == [] then []
    else
      var before := events[..|events| - 1];
      TakenFrom(md5, s, before, i) + TakenIn(Run(md5, s, before), events[|events| - 1], i)
  }

  // ---- what should have been --------------------------------------------------------------------

  /** Jobs and announcements, without the other commands. */
  function Orders(cs: seq<Command>): seq<Command> {
    if cs == [] then []
    else
      var c := cs[|cs| - 1];
      Orders(cs[..|cs| - 1]) + if c.Assign? || c.Announce? then [c] else []
  }

  /** The first job, and for each accepted reply its announcement and the next job. */
  function Expected(first: Text, start: nat, accepted: seq<Reply>, n: nat, i: nat): seq<Command> {
    if accepted == [] then [Assign(Job(start, first, n, i))]
    else
      var r := accepted[|accepted| - 1];
      Expected(first, start, accepted[..|accepted| - 1], n, i)
      + [Announce(r.target, r.hash), Assign(Job(r.target + 1, r.mine, n, i))]
  }

  /** The job the commands read so far leave a miner with. */
  function Duty(cs: seq<Command>): Option<Job> {
    if cs == [] then None
    else
      match cs[|cs| - 1]
      case Assign(job) => Some(job)
      case Announce(_, _) => None
      case Status => Duty(cs[..|cs| - 1])
      case Quit => None
  }

  predicate Reported(replies: seq<Reply>, job: Job) {
    exists k :: 0 <= k < |replies| && replies[k].target == job.target && job.mine <= replies[k].mine
  }

  /** A miner works exactly while it has a job it has not reported a find for. */
  predicate Obedient(m: Miner, read: seq<Command>, replies: seq<Reply>) {
    && (m.work ==> Duty(read) == Some(m.job))
    && (!m.work && Duty(read).Some? ==> Reported(replies, Duty(read).value))
  }

  predicate Delivered(first: Text, start: nat, n: nat, s: System, i: nat, read: seq<Command>, taken: seq<Reply>) {
    && i < n == |s.miners| == |s.toMiner| == |s.toBoss|
    && Orders(read + s.toMiner[i]) == Expected(first, start, s.accepted, n, i)
    && Obedient(s.miners[i], read, taken + s.toBoss[i])
    && (!s.running ==> read + s.toMiner[i] != [] && Last(read + s.toMiner[i]) == Quit)
    && forall k :: 0 <= k < |taken| ==> taken[k].target < s.target
  }

  function Last(cs: seq<Command>): Command
    requires cs != []
  {
    cs[|cs| - 1]
  }

  // ---- every step -----------------------------------------------------------------------------

  lemma OrdersMore(cs: seq<Command>, c: Command)
    ensures Orders(cs + [c]) == Orders(cs) + if c.Assign? || c.Announce? then [c] else []
  {
    assert (cs + [c])[..|cs|] == cs;
  }

  lemma DutyMore(cs: seq<Command>, c: Command)
    ensures Duty(cs + [c]) ==
            if c.Assign? then Some(c.job) else if c.Status? then Duty(cs) else None
  {
    assert (cs + [c])[..|cs|] == cs;
  }

  lemma ExpectedMore(first: Text, start: nat, accepted: seq<Reply>, r: Reply, n: nat, i: nat)
    ensures Expected(first, start, accepted + [r], n, i) ==
            Expected(first, start, accepted, n, i)
            + [Announce(r.target, r.hash), Assign(Job(r.target + 1, r.mine, n, i))]
  {
    assert (accepted + [r])[..|accepted|] == accepted;
  }

  /** Reading a command keeps a miner obedient. */
  lemma ObeyKeeps(m: Miner, c: Command, read: seq<Command>, replies: seq<Reply>)
    requires Obedient(m, read, replies)
    requires c.Assign? ==> ShareValid(c.job)
    ensures Obedient(Obey(m, c), read + [c], replies)
  {
    hide Duty, Reported, Lower;
    DutyMore(read, c);
    if c.Assign? {
      ShareBounds(c.job.share, c.job.miners);
    }
  }

  /** Trying a candidate does too. */
  lemma WorkKeeps(md5: Hash, m: Miner, read: seq<Command>, replies: seq<Reply>)
    requires Obedient(m, read, replies) && m.work
    ensures Obedient(Work(md5, m).0, read, replies + Work(md5, m).1)
  {
    hide Duty, Lower, Higher, Next, LeadingZeros, Candidate;
    var (next, more) := Work(md5, m);
    if more != [] {
      TriedExtends(m.job, m.candidate);
      assert (replies + more)[|replies|] == more[0];
    }
  }

  /** The start of the hunt. */
  lemma StartDelivered(md5: Hash, mine: Text, n: nat, i: nat)
    requires i < n
    ensures Delivered(mine, FirstTarget(md5(mine)), n, Start(md5, mine, n), i, [], [])
  {
    hide FirstTarget;
    var s := Start(md5, mine, n);
    var c := Assign(Job(s.target, mine, n, i));
    assert s.toMiner[i] == [c];
    OrdersMore([], c);
    assert [] + [c] == [c];
  }

  lemma ReadsDelivered(md5: Hash, first: Text, start: nat, n: nat, s: System, i: nat, k: nat, read: seq<Command>,
                       taken: seq<Reply>)
    requires Delivered(first, start, n, s, i, read, taken) && Inv(md5, first, start, n, s)
    ensures Delivered(first, start, n, Step(md5, s, MinerReads(k)), i, read + ReadIn(s, MinerReads(k), i), taken)
  {
    hide Orders, Expected, Obedient, Obey, Inv;
    assert read + [] == read;
    if k == i && s.toMiner[i] != [] {
      var c := s.toMiner[i][0];
      assert c.Assign? ==> ShareValid(c.job) by {
        CommandIsSound(md5, first, start, n, s, i);
      }
      ObeyKeeps(s.miners[i], c, read, taken + s.toBoss[i]);
      assert read + [c] + s.toMiner[i][1..] == read + s.toMiner[i];
    }
  }

  lemma CommandIsSound(md5: Hash, first: Text, start: nat, n: nat, s: System, i: nat)
    requires Inv(md5, first, start, n, s) && i < n && s.toMiner[i] != []
    ensures s.toMiner[i][0].Assign? ==> ShareValid(s.toMiner[i][0].job)
  {
    hide ChainSound, RepliesSound, MinersSound;
    assert CommandSound(first, start, s, s.toMiner[i][0], i);
  }

  lemma WorksDelivered(md5: Hash, first: Text, start: nat, n: nat, s: System, i: nat, k: nat, read: seq<Command>,
                       taken: seq<Reply>)
    requires Delivered(first, start, n, s, i, read, taken)
    ensures Delivered(first, start, n, Step(md5, s, MinerWorks(k)), i, read, taken)
  {
    hide Orders, Expected, Obedient, Work;
    if k == i && s.miners[i].work {
      WorkKeeps(md5, s.miners[i], read, taken + s.toBoss[i]);
      var more := Work(md5, s.miners[i]).1;
      assert taken + s.toBoss[i] + more == taken + (s.toBoss[i] + more);
    }
  }

  /** A command that is no job is written to everybody. */
  lemma ToldDelivered(first: Text, start: nat, n: nat, s: System, i: nat, read: seq<Command>, taken: seq<Reply>,
                      c: Command, running: bool)
    requires Delivered(first, start, n, s, i, read, taken) && (c == Status || c == Quit)
    requires s.running && (running || c == Quit)
    ensures Delivered(first, start, n, s.(running := running, toMiner := Broadcast(s.toMiner, c)), i, read, taken)
  {
    hide Orders, Expected, Obedient;
    OrdersMore(read + s.toMiner[i], c);
    assert read + s.toMiner[i] + [c] == read + (s.toMiner[i] + [c]);
    assert Orders(read + s.toMiner[i]) + [] == Orders(read + s.toMiner[i]);
  }

  /** The boss takes a reply from its pipe and handles it. */
  lemma TakesDelivered(md5: Hash, first: Text, start: nat, n: nat, s: System, i: nat, k: nat, read: seq<Command>,
                       taken: seq<Reply>)
    requires Delivered(first, start, n, s, i, read, taken) && Inv(md5, first, start, n, s)
    ensures Delivered(first, start, n, Step(md5, s, BossReads(k)), i, read, taken + TakenIn(s, BossReads(k), i))
  {
    hide Orders, Expected, Obedient, Inv;
    assert taken + [] == taken;
    if s.running && k < |s.toBoss| && s.toBoss[k] != [] {
      var r := s.toBoss[k][0];
      assert r.target <= s.target by {
        ReplyIsSound(md5, first, start, n, s, k);
      }
      assert k == i ==> taken + [r] + s.toBoss[i][1..] == taken + s.toBoss[i];
      if r.target == s.target {
        AcceptDelivered(first, start, n, s, i, read, r);
      }
    }
  }

  lemma ReplyIsSound(md5: Hash, first: Text, start: nat, n: nat, s: System, k: nat)
    requires Inv(md5, first, start, n, s) && k < |s.toBoss| && s.toBoss[k] != []
    ensures s.toBoss[k][0].target <= s.target
  {
    hide ChainSound, PipesSound, MinersSound;
    assert ReplySound(md5, first, start, s, s.toBoss[k][0]);
  }

  lemma AcceptDelivered(first: Text, start: nat, n: nat, s: System, i: nat, read: seq<Command>, r: Reply)
    requires i < n == |s.toMiner| && r.target == s.target
    requires Orders(read + s.toMiner[i]) == Expected(first, start, s.accepted, n, i)
    ensures Orders(read + Accept(s, r).toMiner[i]) == Expected(first, start, s.accepted + [r], n, i)
  {
    hide Orders, Expected;
    var a, b := Announce(r.target, r.hash), Assign(Job(r.target + 1, r.mine, n, i));
    var cs := read + s.toMiner[i];
    OrdersMore(cs, a);
    OrdersMore(cs + [a], b);
    ExpectedMore(first, start, s.accepted, r, n, i);
    assert read + Accept(s, r).toMiner[i] == cs + [a] + [b];
    assert Orders(cs) + [a] + [b] == Orders(cs) + [a, b];
  }

  lemma StepDelivers(md5: Hash, first: Text, start: nat, n: nat, s: System, e: Event, i: nat, read: seq<Command>,
                     taken: seq<Reply>)
    requires Delivered(first, start, n, s, i, read, taken) && Inv(md5, first, start, n, s)
    ensures Delivered(first, start, n, Step(md5, s, e), i, read + ReadIn(s, e, i), taken + TakenIn(s, e, i))
  {
    hide Delivered, Inv, Accept, Obey, Work;
    assert read + [] == read && taken + [] == taken;
    match e
    case MinerReads(k) => ReadsDelivered(md5, first, start, n, s, i, k, read, taken);
    case MinerWorks(k) => WorksDelivered(md5, first, start, n, s, i, k, read, taken);
    case BossReads(k) => TakesDelivered(md5, first, start, n, s, i, k, read, taken);
    case BossAsksStatus =>
      if s.running {
        ToldDelivered(first, start, n, s, i, read, taken, Status, true);
      }
    case BossQuits =>
      if s.running {
        ToldDelivered(first, start, n, s, i, read, taken, Quit, false);
      }
  }

  lemma {:induction false} RunDelivers(md5: Hash, mine: Text, n: nat, events: seq<Event>, i: nat)
    requires i < n <= 256
    ensures
      var s0 := Start(md5, mine, n);
      Delivered(mine, FirstTarget(md5(mine)), n, Run(md5, s0, events), i, ReadBy(md5, s0, events, i),
        TakenFrom(md5, s0, events, i))
  {
    hide Delivered, Inv, Step, ReadIn, TakenIn, Start;
    var s0 := Start(md5, mine, n);
    if events == [] {
      StartDelivered(md5, mine, n, i);
    } else {
      var before := events[..|events| - 1];
      RunDelivers(md5, mine, n, before, i);
      RunKeeps(md5, mine, n, before);
      StepDelivers(md5, mine, FirstTarget(md5(mine)), n, Run(md5, s0, before), events[|events| - 1], i,
        ReadBy(md5, s0, before, i), TakenFrom(md5, s0, before, i));
    }
  }

  // ---- what every run promises ---------------------------------------------------------------------

  /** In every run the jobs and announcements written to a miner are the first job and, for each
      accepted reply in turn, its announcement and the job for the next target in the new mine. */
  lemma EveryMinerIsTold(md5: Hash, mine: Text, n: nat, events: seq<Event>, i: nat)
    requires i < n <= 256
    ensures
      var s := Run(md5, Start(md5, mine, n), events);
      && |s.toMiner| == n
      && Orders(ReadBy(md5, Start(md5, mine, n), events, i) + s.toMiner[i])
         == Expected(mine, FirstTarget(md5(mine)), s.accepted, n, i)
  {
    hide Orders, Expected, Run, ReadBy, Start;
    RunDelivers(md5, mine, n, events, i);
  }

  /** In every run a miner works exactly when the last job, announcement or quit that it has read is
      a job and it has not reported a find for that job; and it works on that job. */
  lemma WorksOnLastJob(md5: Hash, mine: Text, n: nat, events: seq<Event>, i: nat)
    requires i < n <= 256
    ensures
      var s0 := Start(md5, mine, n);
      var s, duty := Run(md5, s0, events), Duty(ReadBy(md5, s0, events, i));
      && |s.miners| == |s.toBoss| == n
      && (s.miners[i].work ==> duty == Some(s.miners[i].job))
      && (!s.miners[i].work && duty.Some? ==> Reported(TakenFrom(md5, s0, events, i) + s.toBoss[i], duty.value))
  {
    hide Orders, Expected, Run, ReadBy, TakenFrom, Start, Reported, Duty;
    RunDelivers(md5, mine, n, events, i);
  }

  /** In every run each reply that the boss has read was accepted itself or came after another one
      for its target: none for the current target is lost. */
  lemma NoFindIsLost(md5: Hash, mine: Text, n: nat, events: seq<Event>, i: nat, k: nat)
    requires i < n <= 256 && k < |TakenFrom(md5, Start(md5, mine, n), events, i)|
    ensures TakenFrom(md5, Start(md5, mine, n), events, i)[k].target < Run(md5, Start(md5, mine, n), events).target
  {
    hide Orders, Expected, Run, ReadBy, TakenFrom, Start, Obedient;
    RunDelivers(md5, mine, n, events, i);
  }

  /** After the boss has quit, a miner that has read its pipe empty does not work. */
  lemma QuitEndsWork(md5: Hash, mine: Text, n: nat, events: seq<Event>, i: nat)
    requires i < n <= 256
    ensures
      var s := Run(md5, Start(md5, mine, n), events);
      && |s.miners| == |s.toMiner| == n
      && (!s.running && s.toMiner[i] == [] ==> !s.miners[i].work)
  {
    hide Orders, Expected, Run, ReadBy, TakenFrom, Start, Reported;
    RunDelivers(md5, mine, n, events, i);
    var read := ReadBy(md5, Start(md5, mine, n), events, i);
    assert read + [] == read;
  }
}
