/** Who gets which message, and who may be matched with whom: said from the log and the filters. */
module ChatDelivery {
  import opened Bytes
  import opened ChatServer
  import opened Wrappers

  // ---- messages ------------------------------------------------------------------------------

  /** The texts a user was sent as said by the other side, since the user's last match. */
  function Received(log: seq<Sent>, fd: nat): seq<Text> {
    if log == [] then []
    else
      var before, last := Received(log[..|log| - 1], fd), log[|log| - 1];
      if last.to != fd then before
      else if last.msg.Matched? then []
      else if last.msg.Receive? then before + [last.msg.text]
      else before
  }

  /** The texts a user's own messages were echoed with, since the user's last match. */
  function Said(log: seq<Sent>, fd: nat): seq<Text> {
    if log == [] then []
    else
      var before, last := Said(log[..|log| - 1], fd), log[|log| - 1];
      if last.to != fd then before
      else if last.msg.Matched? then []
      else if last.msg.SayEcho? then before + [last.msg.text]
      else before
  }

  lemma OneMore(log: seq<Sent>, m: Sent, fd: nat)
    ensures Received(log + [m], fd) ==
            if m.to != fd then Received(log, fd) else if m.msg.Matched? then []
            else if m.msg.Receive? then Received(log, fd) + [m.msg.text] else Received(log, fd)
    ensures Said(log + [m], fd) ==
            if m.to != fd then Said(log, fd) else if m.msg.Matched? then []
            else if m.msg.SayEcho? then Said(log, fd) + [m.msg.text] else Said(log, fd)
  {
    assert (log + [m])[..|log|] == log;
  }

  /** What either side of a chat has said since they met is what the other has received, in order. */
  ghost predicate Delivered(s: Chat)
    requires Sized(s)
  {
    forall i :: 0 <= i < |s.available| && s.chattingTo[i] >= 0 ==> Received(s.log, s.chattingTo[i]) == Said(s.log, i)
  }

  /** A message that is neither said nor received changes nothing here, unless it is a match. */
  lemma Unrelated(log: seq<Sent>, m: Sent, fd: nat)
    requires !m.msg.Matched? && !m.msg.Receive? && !m.msg.SayEcho?
    ensures Received(log + [m], fd) == Received(log, fd) && Said(log + [m], fd) == Said(log, fd)
  {
    OneMore(log, m, fd);
  }

  lemma SayingDelivers(accepts: Filter, s: Chat, fd: nat, text: Text)
    requires Sized(s) && Inv(accepts, s) && Delivered(s) && fd < |s.available|
    ensures Delivered(Saying(s, fd, text))
  {
    hide Received, Said;
    var r, p, echo := Saying(s, fd, text), s.chattingTo[fd], Sent(fd, SayEcho(text));
    var log1 := s.log + [echo];
    assert p < 0 ==> r.log == log1;
    assert p >= 0 ==> r.log == log1 + [Sent(p, Receive(text))];
    forall i | 0 <= i < |r.available| && r.chattingTo[i] >= 0
      ensures Received(r.log, r.chattingTo[i]) == Said(r.log, i)
    {
      assert UserSound(s, i) && UserSound(s, fd);
      OneMore(s.log, echo, i);
      OneMore(s.log, echo, s.chattingTo[i]);
      if p >= 0 {
        OneMore(log1, Sent(p, Receive(text)), i);
        OneMore(log1, Sent(p, Receive(text)), s.chattingTo[i]);
      }
    }
  }

  lemma MatchingDelivers(accepts: Filter, s: Chat, fd: nat, user: User)
    requires Sized(s) && Inv(accepts, s) && Delivered(s)
    requires fd < |s.available| && s.connected[fd] && s.chattingTo[fd] < 0
    ensures Delivered(Matching(accepts, s, fd, user))
  {
    hide Received, Said, Lowest;
    var entered, r := Enter(s, fd, user), Matching(accepts, s, fd, user);
    var m := Lowest(accepts, entered, user, fd, 0);
    forall i ensures Received(entered.log, i) == Received(s.log, i) && Said(entered.log, i) == Said(s.log, i) {
      Unrelated(s.log, Sent(fd, TryMatchEcho), i);
    }
    if m >= 0 {
      assert Suits(accepts, entered, user, fd, m) && UserSound(s, m);
      var first := Sent(m, Matched(entered.userData[fd].value));
      var second := Sent(fd, Matched(entered.userData[m].value));
      assert r.log == entered.log + [first] + [second];
      forall i | 0 <= i < |r.available| && r.chattingTo[i] >= 0
        ensures Received(r.log, r.chattingTo[i]) == Said(r.log, i)
      {
        assert UserSound(s, i);
        OneMore(entered.log, first, i);
        OneMore(entered.log + [first], second, i);
        OneMore(entered.log, first, r.chattingTo[i]);
        OneMore(entered.log + [first], second, r.chattingTo[i]);
      }
    }
  }

  lemma EndDelivers(accepts: Filter, s: Chat, before: Chat, fd: nat)
    requires Sized(s) && Inv(accepts, s) && Delivered(s) && fd < |s.available| && Sized(before)
    requires before.chattingTo == s.chattingTo && |before.available| == |s.available|
    requires forall i: nat :: Received(before.log, i) == Received(s.log, i) && Said(before.log, i) == Said(s.log, i)
    ensures Delivered(EndChat(before, fd))
  {
    hide Received, Said;
    var r, p := EndChat(before, fd), s.chattingTo[fd];
    forall i | 0 <= i < |r.available| && r.chattingTo[i] >= 0
      ensures Received(r.log, r.chattingTo[i]) == Said(r.log, i)
    {
      assert UserSound(s, i) && UserSound(s, fd);
      if p >= 0 {
        Unrelated(before.log, Sent(p, OtherSideQuit), i);
        Unrelated(before.log, Sent(p, OtherSideQuit), r.chattingTo[i]);
      }
    }
  }

  lemma StepDelivers(accepts: Filter, s: Chat, e: Event)
    requires Sized(s) && Inv(accepts, s) && Delivered(s)
    ensures Delivered(Step(accepts, s, e))
  {
    hide Received, Said, EndChat, Matching, Saying, Inv;
    if Allowed(s, e) {
      match e
      case Connect(fd) =>
        forall i: nat ensures Received(s.log + [Sent(fd, Opened)], i) == Received(s.log, i) &&
                              Said(s.log + [Sent(fd, Opened)], i) == Said(s.log, i) {
          Unrelated(s.log, Sent(fd, Opened), i);
        }
      case Close(fd) =>
        var cleared := if s.userData[fd].Some?
          then s.(userData := s.userData[fd := None], available := s.available[fd := false]) else s;
        EndDelivers(accepts, s, cleared, fd);
      case TryMatch(fd, user) => MatchingDelivers(accepts, s, fd, user);
      case Say(fd, text) => SayingDelivers(accepts, s, fd, text);
      case Quit(fd) =>
        var before := s.(userData := s.userData[fd := None], available := s.available[fd := false],
          log := s.log + [Sent(fd, QuitEcho)]);
        forall i: nat ensures Received(before.log, i) == Received(s.log, i) && Said(before.log, i) == Said(s.log, i) {
          Unrelated(s.log, Sent(fd, QuitEcho), i);
        }
        EndDelivers(accepts, s, before, fd);
    }
  }

  lemma NothingDelivered(n: nat)
    ensures Delivered(Init(n))
  {
  }

  lemma {:induction false} DeliveredAlways(accepts: Filter, n: nat, events: seq<Event>)
    ensures Delivered(Run(accepts, n, events))
  {
    hide Step, Delivered;
    if events == [] {
      NothingDelivered(n);
    } else {
      DeliveredAlways(accepts, n, events[..|events| - 1]);
      RunKeeps(accepts, n, events[..|events| - 1]);
      StepDelivers(accepts, Run(accepts, n, events[..|events| - 1]), events[|events| - 1]);
    }
  }

  lemma {:induction false} DiagramAt(log: seq<Sent>, k: nat)
    requires FollowsDiagram(log) && k < |log|
    ensures Arrow(ViewOf(log[..k], log[k].to), log[k].msg)
  {
    if k < |log| - 1 {
      DiagramAt(log[..|log| - 1], k);
      assert log[..|log| - 1][..k] == log[..k];
    }
  }

  /** In every run: of two users who chat with each other, each has received exactly what the other
      has said since they met, in order; and nobody was ever sent a message by the other side while
      not chatting. */
  lemma MessagesDelivered(accepts: Filter, n: nat, events: seq<Event>)
    ensures
      var s := Run(accepts, n, events);
      && (forall i :: 0 <= i < n && s.chattingTo[i] >= 0 ==> Received(s.log, s.chattingTo[i]) == Said(s.log, i))
      && forall k :: 0 <= k < |s.log| && s.log[k].msg.Receive? ==> ViewOf(s.log[..k], s.log[k].to).Chatting?
  {
    hide Run, Received, Said, ViewOf, FollowsDiagram;
    var s := Run(accepts, n, events);
    DeliveredAlways(accepts, n, events);
    RunLog(accepts, n, events);
    forall k | 0 <= k < |s.log| && s.log[k].msg.Receive?
      ensures ViewOf(s.log[..k], s.log[k].to).Chatting?
    {
      DiagramAt(s.log, k);
    }
  }

  /** Something said while chatting reaches the partner and nobody else; otherwise only the echo is
      sent. */
  lemma SaidOnce(accepts: Filter, n: nat, events: seq<Event>, fd: nat, text: Text)
    requires fd < n && Run(accepts, n, events).connected[fd]
    ensures
      var s, r := Run(accepts, n, events), Run(accepts, n, events + [Say(fd, text)]);
      && Said(r.log, fd) == Said(s.log, fd) + [text]
      && (forall i: nat :: Received(r.log, i) ==
           if s.chattingTo[fd] == i then Received(s.log, i) + [text] else Received(s.log, i))
  {
    hide Received, Said, Run;
    var s := Run(accepts, n, events);
    RunAppend(accepts, n, events, Say(fd, text));
    RunKeeps(accepts, n, events);
    assert UserSound(s, fd);
    var r, p, echo := Saying(s, fd, text), s.chattingTo[fd], Sent(fd, SayEcho(text));
    var log1 := s.log + [echo];
    assert p < 0 ==> r.log == log1;
    assert p >= 0 ==> r.log == log1 + [Sent(p, Receive(text))];
    forall i: nat ensures Received(r.log, i) == if p == i then Received(s.log, i) + [text] else Received(s.log, i) {
      OneMore(s.log, echo, i);
      if p >= 0 {
        OneMore(log1, Sent(p, Receive(text)), i);
      }
    }
    OneMore(s.log, echo, fd);
    if p >= 0 {
      OneMore(log1, Sent(p, Receive(text)), fd);
    }
  }

  lemma RunAppend(accepts: Filter, n: nat, events: seq<Event>, e: Event)
    ensures Run(accepts, n, events + [e]) == Step(accepts, Run(accepts, n, events), e)
  {
    hide Step;
    assert (events + [e])[..|events|] == events;
  }

  // ---- matches -----------------------------------------------------------------------------------

  /** Of two users who chat, each passes the other's filter. */
  ghost predicate WellMatched(accepts: Filter, s: Chat, i: nat)
    requires Sized(s) && i < |s.available|
  {
    var j := s.chattingTo[i];
    j >= 0 && s.userData[i].Some? && s.userData[j].Some? ==> accepts(s.userData[i].value, s.userData[j].value)
  }

  lemma StepWellMatched(accepts: Filter, s: Chat, e: Event, i: nat)
    requires Sized(s) && Inv(accepts, s) && i < |s.available|
    requires forall k :: 0 <= k < |s.available| ==> WellMatched(accepts, s, k)
    ensures WellMatched(accepts, Step(accepts, s, e), i)
  {
    hide Lowest;
    if Allowed(s, e) {
      assert UserSound(s, i) && UserSound(s, e.fd) && WellMatched(accepts, s, i) && WellMatched(accepts, s, e.fd);
      if e.TryMatch? {
        var entered := Enter(s, e.fd, e.user);
        var m := Lowest(accepts, entered, e.user, e.fd, 0);
        assert m >= 0 ==> Suits(accepts, entered, e.user, e.fd, m) && UserSound(s, m);
      }
    }
  }

  lemma {:induction false} WellMatchedAlways(accepts: Filter, n: nat, events: seq<Event>)
    ensures forall i :: 0 <= i < n ==> WellMatched(accepts, Run(accepts, n, events), i)
  {
    hide Step, WellMatched;
    if events == [] {
      forall i | 0 <= i < n ensures WellMatched(accepts, Init(n), i) {
        NobodyMatched(accepts, n, i);
      }
    } else {
      var s := Run(accepts, n, events[..|events| - 1]);
      WellMatchedAlways(accepts, n, events[..|events| - 1]);
      RunKeeps(accepts, n, events[..|events| - 1]);
      forall i | 0 <= i < n ensures WellMatched(accepts, Run(accepts, n, events), i) {
        StepWellMatched(accepts, s, events[|events| - 1], i);
      }
    }
  }

  lemma NobodyMatched(accepts: Filter, n: nat, i: nat)
    requires i < n
    ensures WellMatched(accepts, Init(n), i)
  {
  }

  /** In every reachable state: users who chat pass each other's filters, and of two users who wait
      at least one does not pass the other's. */
  lemma MatchesRespectFilters(accepts: Filter, n: nat, events: seq<Event>, i: nat, j: nat)
    requires i < n && j < n && i != j
    requires var s := Run(accepts, n, events); s.userData[i].Some? && s.userData[j].Some?
    ensures
      var s := Run(accepts, n, events);
      var a, b := s.userData[i].value, s.userData[j].value;
      && (s.chattingTo[i] == j ==> accepts(a, b) && accepts(b, a))
      && (s.available[i] && s.available[j] ==> !accepts(a, b) || !accepts(b, a))
  {
    hide Run;
    var s := Run(accepts, n, events);
    RunKeeps(accepts, n, events);
    WellMatchedAlways(accepts, n, events);
    assert UserSound(s, i) && NoMissedMatch(accepts, s, i, j);
    assert WellMatched(accepts, s, i) && WellMatched(accepts, s, j);
  }

  /** Who asks for a match is matched with the lowest descriptor that waits and where either passes
      the other's filter, and otherwise waits. */
  lemma LowestMatched(accepts: Filter, n: nat, events: seq<Event>, fd: nat, user: User)
    requires fd < n && Run(accepts, n, events).connected[fd] && Run(accepts, n, events).chattingTo[fd] < 0
    ensures
      var s, r := Run(accepts, n, events), Run(accepts, n, events + [TryMatch(fd, user)]);
      var m := r.chattingTo[fd];
      && r.userData[fd] == Some(user) && r.available[fd] == (m < 0)
      && (forall k :: 0 <= k < (if m < 0 then n else m) && k != fd && s.available[k] && s.userData[k].Some? ==>
            !accepts(user, s.userData[k].value) || !accepts(s.userData[k].value, user))
      && (m >= 0 ==>
            && m != fd && s.available[m] && s.userData[m].Some?
            && accepts(user, s.userData[m].value) && accepts(s.userData[m].value, user))
  {
    hide Run, Lowest;
    var s := Run(accepts, n, events);
    RunAppend(accepts, n, events, TryMatch(fd, user));
    RunKeeps(accepts, n, events);
    assert UserSound(s, fd);
    var entered := Enter(s, fd, user);
    var m := Lowest(accepts, entered, user, fd, 0);
    forall k | 0 <= k < (if m < 0 then n else m) && k != fd && s.available[k] && s.userData[k].Some?
      ensures !accepts(user, s.userData[k].value) || !accepts(s.userData[k].value, user)
    {
      assert !Suits(accepts, entered, user, fd, k);
    }
  }
}
