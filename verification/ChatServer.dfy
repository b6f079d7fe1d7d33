/** The chat server: three parallel arrays indexed by file descriptor hold every user's state.
    What a filter function decides is a parameter; what the server sends is kept in a log. */
module ChatServer {
  import opened Bytes
  import opened Wrappers

  datatype User = User(name: Text, age: nat, gender: Text, introduction: Text, filter: Text)

  /** accepts(a, b): the filter of a lets b pass. */
  type Filter = (User, User) -> bool

  /** Opened is no message: it marks where a connection begins in the log. */
  datatype Message =
    | Opened
    | TryMatchEcho
    | Matched(other: User)
    | SayEcho(text: Text)
    | Receive(text: Text)
    | QuitEcho
    | OtherSideQuit

  datatype Sent = Sent(to: nat, msg: Message)

  datatype Chat = Chat(
    available: seq<bool>,
    chattingTo: seq<int>,
    userData: seq<Option<User>>,
    connected: seq<bool>,
    log: seq<Sent>)

  datatype Event =
    | Connect(fd: nat)
    | Close(fd: nat)
    | TryMatch(fd: nat, user: User)
    | Say(fd: nat, text: Text)
    | Quit(fd: nat)

  predicate Sized(s: Chat) {
    && |s.available| == |s.chattingTo| == |s.userData| == |s.connected|
    && forall i :: 0 <= i < |s.chattingTo| ==> -1 <= s.chattingTo[i] < |s.chattingTo|
  }

  function Init(n: nat): Chat {
    Chat(seq(n, _ => false), seq(n, _ => -1), seq(n, _ => None), seq(n, _ => false), [])
  }

  // ---- the transitions -------------------------------------------------------------------

  predicate Compatible(accepts: Filter, a: User, b: User) {
    accepts(a, b) && accepts(b, a)
  }

  /** i waits and both filters pass. */
  predicate Suits(accepts: Filter, s: Chat, self: User, fd: nat, i: nat)
    requires Sized(s) && i < |s.available|
  {
    i != fd && s.available[i] && s.userData[i].Some? && Compatible(accepts, self, s.userData[i].value)
  }

  /** The lowest descriptor from i on that suits, or -1. */
  function Lowest(accepts: Filter, s: Chat, self: User, fd: nat, i: nat): (m: int)
    requires Sized(s) && i <= |s.available|
    ensures -1 <= m < |s.available|
    ensures m >= 0 ==> i <= m && Suits(accepts, s, self, fd, m)
    ensures forall k :: i <= k < (if m < 0 then |s.available| else m) ==> !Suits(accepts, s, self, fd, k)
    decreases |s.available| - i
  {
    if i == |s.available| then -1
    else if Suits(accepts, s, self, fd, i) then i
    else Lowest(accepts, s, self, fd, i + 1)
  }

  /** The user's data is stored, and the user waits. */
  function Enter(s: Chat, fd: nat, user: User): (r: Chat)
    requires Sized(s) && fd < |s.available|
    ensures Sized(r) && |r.available| == |s.available|
  {
    s.(userData := s.userData[fd := Some(user)], available := s.available[fd := true],
       log := s.log + [Sent(fd, TryMatchEcho)])
  }

  function Pair(s: Chat, fd: nat, m: nat): (r: Chat)
    requires Sized(s) && fd < |s.available| && m < |s.available| && s.userData[fd].Some? && s.userData[m].Some?
    ensures Sized(r) && |r.available| == |s.available|
  {
    s.(available := s.available[fd := false][m := false], chattingTo := s.chattingTo[fd := m][m := fd],
       log := s.log + [Sent(m, Matched(s.userData[fd].value)), Sent(fd, Matched(s.userData[m].value))])
  }

  function Matching(accepts: Filter, s: Chat, fd: nat, user: User): (r: Chat)
    requires Sized(s) && fd < |s.available|
    ensures Sized(r) && |r.available| == |s.available|
  {
    var entered := Enter(s, fd, user);
    var m := Lowest(accepts, entered, user, fd, 0);
    if m < 0 then entered else Pair(entered, fd, m)
  }

  /** fd's chat, if there is one, ends on both sides. */
  function EndChat(s: Chat, fd: nat): (r: Chat)
    requires Sized(s) && fd < |s.available|
    ensures Sized(r) && |r.available| == |s.available|
  {
    if s.chattingTo[fd] < 0 then s
    else
      var p := s.chattingTo[fd];
      s.(userData := s.userData[p := None], chattingTo := s.chattingTo[p := -1][fd := -1],
         available := s.available[p := false], log := s.log + [Sent(p, OtherSideQuit)])
  }

  function Closing(s: Chat, fd: nat): (r: Chat)
    requires Sized(s) && fd < |s.available|
    ensures Sized(r) && |r.available| == |s.available|
  {
    var cleared :=
      if s.userData[fd].Some? then s.(userData := s.userData[fd := None], available := s.available[fd := false]) else s;
    EndChat(cleared, fd).(connected := s.connected[fd := false])
  }

  function Leaving(s: Chat, fd: nat): (r: Chat)
    requires Sized(s) && fd < |s.available|
    ensures Sized(r) && |r.available| == |s.available|
  {
    EndChat(s.(userData := s.userData[fd := None], available := s.available[fd := false],
               log := s.log + [Sent(fd, QuitEcho)]), fd)
  }

  /** The message goes back to its sender, and on to the partner if there is one. */
  function Saying(s: Chat, fd: nat, text: Text): (r: Chat)
    requires Sized(s) && fd < |s.available|
    ensures Sized(r) && |r.available| == |s.available|
  {
    s.(log := s.log + [Sent(fd, SayEcho(text))]
              + if s.chattingTo[fd] >= 0 then [Sent(s.chattingTo[fd], Receive(text))] else [])
  }

  /** A client sends only while connected, and does not ask for a match while it chats. */
  predicate Allowed(s: Chat, e: Event)
    requires Sized(s)
  {
    e.fd < |s.available| &&
    if e.Connect? then !s.connected[e.fd]
    else s.connected[e.fd] && (e.TryMatch? ==> s.chattingTo[e.fd] < 0)
  }

  function Step(accepts: Filter, s: Chat, e: Event): (r: Chat)
    requires Sized(s)
    ensures Sized(r) && |r.available| == |s.available|
  {
    if !Allowed(s, e) then s
    else match e
      case Connect(fd) => s.(connected := s.connected[fd := true], log := s.log + [Sent(fd, Opened)])
      case Close(fd) => Closing(s, fd)
      case TryMatch(fd, user) => Matching(accepts, s, fd, user)
      case Say(fd, text) => Saying(s, fd, text)
      case Quit(fd) => Leaving(s, fd)
  }

  function Run(accepts: Filter, n: nat, events: seq<Event>): (r: Chat)
    ensures Sized(r) && |r.available| == n
  {
    if events == [] then Init(n)
    else Step(accepts, Run(accepts, n, events[..|events| - 1]), events[|events| - 1])
  }

  // ---- the invariant -----------------------------------------------------------------------

  /** Pairing is symmetric and never with oneself; data is stored exactly while waiting or
      chatting, never both; who is not connected is idle. */
  predicate UserSound(s: Chat, i: nat)
    requires Sized(s) && i < |s.available|
  {
    && (s.chattingTo[i] >= 0 ==> s.chattingTo[i] != i && s.chattingTo[s.chattingTo[i]] == i)
    && (s.userData[i].Some? <==> s.available[i] || s.chattingTo[i] >= 0)
    && !(s.available[i] && s.chattingTo[i] >= 0)
    && (!s.connected[i] ==> s.userData[i].None?)
  }

  predicate NoMissedMatch(accepts: Filter, s: Chat, i: nat, j: nat)
    requires Sized(s) && i < |s.available| && j < |s.available|
  {
    i != j && s.available[i] && s.available[j] && s.userData[i].Some? && s.userData[j].Some? ==>
      !Compatible(accepts, s.userData[i].value, s.userData[j].value)
  }

  predicate Inv(accepts: Filter, s: Chat)
    requires Sized(s)
  {
    && (forall i :: 0 <= i < |s.available| ==> UserSound(s, i))
    && (forall i, j :: 0 <= i < |s.available| && 0 <= j < |s.available| ==> NoMissedMatch(accepts, s, i, j))
  }

  lemma ConnectKeeps(accepts: Filter, s: Chat, fd: nat)
    requires Sized(s) && Inv(accepts, s) && Allowed(s, Connect(fd))
    ensures Inv(accepts, Step(accepts, s, Connect(fd)))
  {
    var r := Step(accepts, s, Connect(fd));
    forall i | 0 <= i < |r.available| ensures UserSound(r, i) { assert UserSound(s, i); }
    forall i, j | 0 <= i < |r.available| && 0 <= j < |r.available| ensures NoMissedMatch(accepts, r, i, j) {
      assert NoMissedMatch(accepts, s, i, j);
    }
  }

  lemma MatchingKeeps(accepts: Filter, s: Chat, fd: nat, user: User)
    requires Sized(s) && Inv(accepts, s) && fd < |s.available| && s.connected[fd] && s.chattingTo[fd] < 0
    ensures Inv(accepts, Matching(accepts, s, fd, user))
  {
    hide Lowest;
    var entered := Enter(s, fd, user);
    var m := Lowest(accepts, entered, user, fd, 0);
    var r := Matching(accepts, s, fd, user);
    assert UserSound(s, fd);
    if m >= 0 {
      assert Suits(accepts, entered, user, fd, m) && UserSound(s, m);
    }
    forall i | 0 <= i < |r.available| ensures UserSound(r, i) { assert UserSound(s, i); }
    forall i, j | 0 <= i < |r.available| && 0 <= j < |r.available| ensures NoMissedMatch(accepts, r, i, j) {
      assert NoMissedMatch(accepts, s, i, j);
      if m < 0 {
        assert !Suits(accepts, entered, user, fd, i) && !Suits(accepts, entered, user, fd, j);
      }
    }
  }

  /** Ending a chat: the user's own data may have been cleared already. */
  lemma EndKeeps(accepts: Filter, s: Chat, before: Chat, fd: nat)
    requires Sized(s) && Inv(accepts, s) && fd < |s.available| && Sized(before)
    requires before.available == s.available[fd := false] && before.userData == s.userData[fd := None]
    requires before.chattingTo == s.chattingTo && before.connected == s.connected
    ensures Inv(accepts, EndChat(before, fd)) && EndChat(before, fd).chattingTo[fd] < 0
    ensures EndChat(before, fd).userData[fd].None? && !EndChat(before, fd).available[fd]
  {
    var r := EndChat(before, fd);
    assert UserSound(s, fd);
    forall i | 0 <= i < |r.available| ensures UserSound(r, i) { assert UserSound(s, i); }
    forall i, j | 0 <= i < |r.available| && 0 <= j < |r.available| ensures NoMissedMatch(accepts, r, i, j) {
      assert NoMissedMatch(accepts, s, i, j);
    }
  }

  lemma LeavingKeeps(accepts: Filter, s: Chat, fd: nat)
    requires Sized(s) && Inv(accepts, s) && fd < |s.available|
    ensures Inv(accepts, Leaving(s, fd))
  {
    EndKeeps(accepts, s, s.(userData := s.userData[fd := None], available := s.available[fd := false],
                            log := s.log + [Sent(fd, QuitEcho)]), fd);
  }

  lemma ClosingKeeps(accepts: Filter, s: Chat, fd: nat)
    requires Sized(s) && Inv(accepts, s) && fd < |s.available|
    ensures Inv(accepts, Closing(s, fd))
  {
    assert UserSound(s, fd);
    var cleared :=
      if s.userData[fd].Some? then s.(userData := s.userData[fd := None], available := s.available[fd := false]) else s;
    EndKeeps(accepts, s, cleared, fd);
    var e := EndChat(cleared, fd);
    var r := Closing(s, fd);
    forall i | 0 <= i < |r.available| ensures UserSound(r, i) { assert UserSound(e, i); }
    forall i, j | 0 <= i < |r.available| && 0 <= j < |r.available| ensures NoMissedMatch(accepts, r, i, j) {
      assert NoMissedMatch(accepts, e, i, j);
    }
  }

  lemma SayingKeeps(accepts: Filter, s: Chat, fd: nat, text: Text)
    requires Sized(s) && Inv(accepts, s) && fd < |s.available|
    ensures Inv(accepts, Saying(s, fd, text))
  {
    var r := Saying(s, fd, text);
    forall i | 0 <= i < |r.available| ensures UserSound(r, i) { assert UserSound(s, i); }
    forall i, j | 0 <= i < |r.available| && 0 <= j < |r.available| ensures NoMissedMatch(accepts, r, i, j) {
      assert NoMissedMatch(accepts, s, i, j);
    }
  }

  lemma StepKeeps(accepts: Filter, s: Chat, e: Event)
    requires Sized(s) && Inv(accepts, s)
    ensures Inv(accepts, Step(accepts, s, e))
  {
    hide Inv, Closing, Matching, Saying, Leaving;
    if Allowed(s, e) {
      match e
      case Connect(fd) => ConnectKeeps(accepts, s, fd);
      case Close(fd) => ClosingKeeps(accepts, s, fd);
      case TryMatch(fd, user) => MatchingKeeps(accepts, s, fd, user);
      case Say(fd, text) => SayingKeeps(accepts, s, fd, text);
      case Quit(fd) => LeavingKeeps(accepts, s, fd);
    }
  }

  lemma InitInv(accepts: Filter, n: nat)
    ensures Inv(accepts, Init(n))
  {
  }

  /** In every reachable state: who chats with whom is a symmetric pairing, data is stored exactly
      for those who wait or chat, nobody does both, and no two waiting users accept each other. */
  lemma {:induction false} RunKeeps(accepts: Filter, n: nat, events: seq<Event>)
    ensures Inv(accepts, Run(accepts, n, events))
  {
    hide Inv, Step, Init;
    if events == [] {
      InitInv(accepts, n);
    } else {
      RunKeeps(accepts, n, events[..|events| - 1]);
      StepKeeps(accepts, Run(accepts, n, events[..|events| - 1]), events[|events| - 1]);
    }
  }

  // ---- what the clients see ------------------------------------------------------------------

  /** A user's state as the user can tell it from the messages received. */
  datatype View = Idle | Waiting | Chatting(other: User)

  function After(v: View, msg: Message): View {
    match msg
    case Opened => Idle
    case TryMatchEcho => Waiting
    case Matched(other) => Chatting(other)
    case SayEcho(_) => v
    case Receive(_) => v
    case QuitEcho => Idle
    case OtherSideQuit => Idle
  }

  function ViewOf(log: seq<Sent>, fd: nat): View {
    if log == [] then Idle
    else
      var last := log[|log| - 1];
      if last.to == fd then After(ViewOf(log[..|log| - 1], fd), last.msg) else ViewOf(log[..|log| - 1], fd)
  }

  /** The arrows of the state diagram that the server's messages follow. */
  predicate Arrow(v: View, msg: Message) {
    match msg
    case TryMatchEcho => !v.Chatting?
    case Matched(_) => v.Waiting?
    case Receive(_) => v.Chatting?
    case OtherSideQuit => v.Chatting?
    case _ => true
  }

  predicate FollowsDiagram(log: seq<Sent>) {
    log == [] ||
    var before, last := log[..|log| - 1], log[|log| - 1];
    FollowsDiagram(before) && Arrow(ViewOf(before, last.to), last.msg)
  }

  function Status(s: Chat, fd: nat): View
    requires Sized(s) && fd < |s.available|
  {
    if s.available[fd] then Waiting
    else if s.chattingTo[fd] >= 0 && s.userData[s.chattingTo[fd]].Some? then
      Chatting(s.userData[s.chattingTo[fd]].value)
    else Idle
  }

  ghost predicate LogSound(s: Chat)
    requires Sized(s)
  {
    && FollowsDiagram(s.log)
    && (forall i :: 0 <= i < |s.available| && s.connected[i] ==> ViewOf(s.log, i) == Status(s, i))
    && Matches(s.log) == 2 * Quits(s.log) + |ChattingUsers(s)|
  }

  lemma ViewAppend(log: seq<Sent>, m: Sent, fd: nat)
    ensures ViewOf(log + [m], fd) == if m.to == fd then After(ViewOf(log, fd), m.msg) else ViewOf(log, fd)
    ensures FollowsDiagram(log + [m]) <==> FollowsDiagram(log) && Arrow(ViewOf(log, m.to), m.msg)
    ensures Matches(log + [m]) == Matches(log) + if m.msg.Matched? then 1 else 0
    ensures Quits(log + [m]) == Quits(log) + if m.msg.OtherSideQuit? then 1 else 0
  {
    assert (log + [m])[..|log|] == log;
  }

  /** How many users were told that they are matched. */
  function Matches(log: seq<Sent>): nat {
    if log == [] then 0 else Matches(log[..|log| - 1]) + if log[|log| - 1].msg.Matched? then 1 else 0
  }

  /** How many users were told that the other side has quit. */
  function Quits(log: seq<Sent>): nat {
    if log == [] then 0 else Quits(log[..|log| - 1]) + if log[|log| - 1].msg.OtherSideQuit? then 1 else 0
  }

  function ChattingUsers(s: Chat): set<nat>
    requires Sized(s)
  {
    set i: nat | i < |s.available| && s.chattingTo[i] >= 0
  }

  lemma ConnectLog(accepts: Filter, s: Chat, fd: nat)
    requires Sized(s) && Inv(accepts, s) && LogSound(s) && Allowed(s, Connect(fd))
    ensures LogSound(Step(accepts, s, Connect(fd)))
  {
    hide ViewOf, FollowsDiagram, Matches, Quits;
    var r := Step(accepts, s, Connect(fd));
    assert UserSound(s, fd);
    ViewAppend(s.log, Sent(fd, Opened), fd);
    forall i | 0 <= i < |r.available| && r.connected[i] ensures ViewOf(r.log, i) == Status(r, i) {
      ViewAppend(s.log, Sent(fd, Opened), i);
    }
    assert ChattingUsers(r) == ChattingUsers(s);
  }

  lemma SayingLog(accepts: Filter, s: Chat, fd: nat, text: Text)
    requires Sized(s) && Inv(accepts, s) && LogSound(s) && fd < |s.available| && s.connected[fd]
    ensures LogSound(Saying(s, fd, text))
  {
    hide ViewOf, FollowsDiagram, Matches, Quits;
    var r := Saying(s, fd, text);
    var echo := Sent(fd, SayEcho(text));
    var log1 := s.log + [echo];
    var p := s.chattingTo[fd];
    assert UserSound(s, fd);
    if p >= 0 {
      assert UserSound(s, p);
      assert r.log == log1 + [Sent(p, Receive(text))];
    } else {
      assert r.log == log1;
    }
    forall i | 0 <= i < |r.available| ensures ViewOf(r.log, i) == ViewOf(s.log, i) {
      ViewAppend(s.log, echo, i);
      if p >= 0 {
        ViewAppend(log1, Sent(p, Receive(text)), i);
      }
    }
    ViewAppend(s.log, echo, fd);
    if p >= 0 {
      ViewAppend(s.log, echo, p);
      ViewAppend(log1, Sent(p, Receive(text)), p);
    }
    assert ChattingUsers(r) == ChattingUsers(s);
  }

  lemma MatchingLog(accepts: Filter, s: Chat, fd: nat, user: User)
    requires Sized(s) && Inv(accepts, s) && LogSound(s) && fd < |s.available| && s.connected[fd] && s.chattingTo[fd] < 0
    ensures LogSound(Matching(accepts, s, fd, user))
  {
    hide ViewOf, FollowsDiagram, Matches, Quits, Lowest;
    var entered := Enter(s, fd, user);
    var m := Lowest(accepts, entered, user, fd, 0);
    EnterLog(accepts, s, fd, user);
    if m >= 0 {
      assert Suits(accepts, entered, user, fd, m);
      assert UserSound(s, m) && UserSound(s, fd);
      PairLog(entered, fd, m);
    }
  }

  lemma EnterLog(accepts: Filter, s: Chat, fd: nat, user: User)
    requires Sized(s) && Inv(accepts, s) && LogSound(s) && fd < |s.available| && s.connected[fd] && s.chattingTo[fd] < 0
    ensures LogSound(Enter(s, fd, user))
    ensures forall i :: 0 <= i < |s.available| && s.chattingTo[i] >= 0 ==> s.chattingTo[i] != fd
  {
    hide ViewOf, FollowsDiagram, Matches, Quits;
    var r := Enter(s, fd, user);
    var echo := Sent(fd, TryMatchEcho);
    forall i | 0 <= i < |s.available| && s.chattingTo[i] >= 0 ensures s.chattingTo[i] != fd { assert UserSound(s, i); }
    ViewAppend(s.log, echo, fd);
    forall i | 0 <= i < |r.available| && r.connected[i] ensures ViewOf(r.log, i) == Status(r, i) {
      ViewAppend(s.log, echo, i);
    }
    assert ChattingUsers(r) == ChattingUsers(s);
  }

  lemma PairLog(s: Chat, fd: nat, m: nat)
    requires Sized(s) && LogSound(s) && fd < |s.available| && m < |s.available| && fd != m
    requires s.available[fd] && s.available[m] && s.connected[fd] && s.connected[m]
    requires s.userData[fd].Some? && s.userData[m].Some? && s.chattingTo[fd] < 0 && s.chattingTo[m] < 0
    ensures LogSound(Pair(s, fd, m))
  {
    hide ViewOf, FollowsDiagram, Matches, Quits;
    var r := Pair(s, fd, m);
    var first, second := Sent(m, Matched(s.userData[fd].value)), Sent(fd, Matched(s.userData[m].value));
    var log1 := s.log + [first];
    assert r.log == log1 + [second];
    ViewAppend(s.log, first, m);
    ViewAppend(s.log, first, fd);
    ViewAppend(log1, second, fd);
    forall i | 0 <= i < |r.available| && r.connected[i] ensures ViewOf(r.log, i) == Status(r, i) {
      ViewAppend(s.log, first, i);
      ViewAppend(log1, second, i);
    }
    assert ChattingUsers(r) == ChattingUsers(s) + {m} + {fd};
  }

  lemma LeavingLog(accepts: Filter, s: Chat, fd: nat)
    requires Sized(s) && Inv(accepts, s) && LogSound(s) && fd < |s.available| && s.connected[fd]
    ensures LogSound(Leaving(s, fd))
  {
    hide ViewOf, FollowsDiagram, Matches, Quits;
    var echo := Sent(fd, QuitEcho);
    var before := s.(userData := s.userData[fd := None], available := s.available[fd := false], log := s.log + [echo]);
    var log1 := s.log + [echo];
    ViewAppend(s.log, echo, fd);
    forall i | 0 <= i < |s.available| ensures ViewOf(log1, i) == if i == fd then Idle else ViewOf(s.log, i) {
      ViewAppend(s.log, echo, i);
    }
    EndLog(accepts, s, before, fd);
  }

  lemma ClosingLog(accepts: Filter, s: Chat, fd: nat)
    requires Sized(s) && Inv(accepts, s) && LogSound(s) && fd < |s.available| && s.connected[fd]
    ensures LogSound(Closing(s, fd))
  {
    hide ViewOf, FollowsDiagram, Matches, Quits;
    assert UserSound(s, fd);
    var cleared :=
      if s.userData[fd].Some? then s.(userData := s.userData[fd := None], available := s.available[fd := false]) else s;
    EndLog(accepts, s, cleared, fd);
    assert ChattingUsers(Closing(s, fd)) == ChattingUsers(EndChat(cleared, fd));
  }

  /** Everybody's view but fd's own agrees with the state when a chat has ended, and fd's does
      if the echo of its quit has been sent. */
  lemma EndLog(accepts: Filter, s: Chat, before: Chat, fd: nat)
    requires Sized(s) && Inv(accepts, s) && LogSound(s) && fd < |s.available| && Sized(before)
    requires before.available == s.available[fd := false] && before.userData == s.userData[fd := None]
    requires before.chattingTo == s.chattingTo && before.connected == s.connected
    requires FollowsDiagram(before.log) && Matches(before.log) == Matches(s.log) && Quits(before.log) == Quits(s.log)
    requires forall i :: 0 <= i < |s.available| && i != fd ==> ViewOf(before.log, i) == ViewOf(s.log, i)
    ensures
      var r := EndChat(before, fd);
      && FollowsDiagram(r.log) && Matches(r.log) == 2 * Quits(r.log) + |ChattingUsers(r)|
      && (forall i :: 0 <= i < |s.available| && i != fd && s.connected[i] ==> ViewOf(r.log, i) == Status(r, i))
      && ViewOf(r.log, fd) == ViewOf(before.log, fd) && Status(r, fd) == Idle
  {
    hide ViewOf, FollowsDiagram, Matches, Quits, Inv, UserSound, Status;
    var r := EndChat(before, fd);
    var p := s.chattingTo[fd];
    EndStatus(accepts, s, before, fd);
    if p >= 0 {
      forall i | 0 <= i < |s.available| ensures ViewOf(r.log, i) == if i == p then Idle else ViewOf(before.log, i) {
        ViewAppend(before.log, Sent(p, OtherSideQuit), i);
      }
      ViewAppend(before.log, Sent(p, OtherSideQuit), p);
      assert ChattingUsers(s) == ChattingUsers(r) + {fd} + {p};
    } else {
      assert ChattingUsers(s) == ChattingUsers(r);
    }
  }

  lemma EndStatus(accepts: Filter, s: Chat, before: Chat, fd: nat)
    requires Sized(s) && Inv(accepts, s) && fd < |s.available| && Sized(before)
    requires before.available == s.available[fd := false] && before.userData == s.userData[fd := None]
    requires before.chattingTo == s.chattingTo && before.connected == s.connected
    ensures
      var r := EndChat(before, fd);
      var p := s.chattingTo[fd];
      && Status(r, fd) == Idle
      && (forall i :: 0 <= i < |s.available| && i != fd ==> Status(r, i) == if i == p then Idle else Status(s, i))
      && (p >= 0 ==> p != fd && s.chattingTo[p] == fd && s.connected[p] && Status(s, p).Chatting?)
  {
    assert UserSound(s, fd);
    var p := s.chattingTo[fd];
    if p >= 0 {
      assert UserSound(s, p);
    }
    forall i | 0 <= i < |s.available| && i != fd
      ensures Status(EndChat(before, fd), i) == if i == p then Idle else Status(s, i)
    {
      assert UserSound(s, i);
    }
  }

  lemma StepLog(accepts: Filter, s: Chat, e: Event)
    requires Sized(s) && Inv(accepts, s) && LogSound(s)
    ensures LogSound(Step(accepts, s, e))
  {
    hide Inv, LogSound, Closing, Matching, Saying, Leaving;
    if Allowed(s, e) {
      match e
      case Connect(fd) => ConnectLog(accepts, s, fd);
      case Close(fd) => ClosingLog(accepts, s, fd);
      case TryMatch(fd, user) => MatchingLog(accepts, s, fd, user);
      case Say(fd, text) => SayingLog(accepts, s, fd, text);
      case Quit(fd) => LeavingLog(accepts, s, fd);
    }
  }

  lemma InitLog(n: nat)
    ensures LogSound(Init(n))
  {
    assert ChattingUsers(Init(n)) == {};
  }

  /** In every run the messages follow the state diagram: a match is announced only to a user who
      waits, a message or the end of a chat only to a user who chats. What a connected user can
      tell from the messages is the user's state in the server, down to the partner's data. And
      every pair of match announcements is answered by one other_side_quit, except for the users
      who still chat. */
  lemma {:induction false} RunLog(accepts: Filter, n: nat, events: seq<Event>)
    ensures
      var s := Run(accepts, n, events);
      && FollowsDiagram(s.log)
      && (forall i :: 0 <= i < n && s.connected[i] ==> ViewOf(s.log, i) == Status(s, i))
      && Matches(s.log) == 2 * Quits(s.log) + |ChattingUsers(s)|
  {
    hide Step, Init, FollowsDiagram, ViewOf, Matches, Quits;
    if events == [] {
      InitLog(n);
    } else {
      RunLog(accepts, n, events[..|events| - 1]);
      RunKeeps(accepts, n, events[..|events| - 1]);
      StepLog(accepts, Run(accepts, n, events[..|events| - 1]), events[|events| - 1]);
    }
  }

  /** In every reachable state the partner of whoever chats is connected, chats back, and both
      hold the data the other was told. */
  lemma PairingSymmetric(accepts: Filter, n: nat, events: seq<Event>, i: nat)
    requires i < n && Run(accepts, n, events).chattingTo[i] >= 0
    ensures
      var s := Run(accepts, n, events);
      var j := s.chattingTo[i];
      && j != i && s.chattingTo[j] == i && s.connected[i] && s.connected[j]
      && s.userData[i].Some? && s.userData[j].Some?
      && ViewOf(s.log, i) == Chatting(s.userData[j].value) && ViewOf(s.log, j) == Chatting(s.userData[i].value)
  {
    hide Run, ViewOf;
    RunKeeps(accepts, n, events);
    RunLog(accepts, n, events);
    var s := Run(accepts, n, events);
    assert UserSound(s, i) && UserSound(s, s.chattingTo[i]);
  }

  // ---- the server ----------------------------------------------------------------------------

  class Server {
    const available: array<bool>
    const chattingTo: array<int>
    const userData: array<Option<User>>
    const connected: array<bool>
    var log: seq<Sent>

    constructor (n: nat)
      ensures Valid() && fresh(available) && fresh(chattingTo) && fresh(userData) && fresh(connected)
      ensures State() == Init(n)
    {
      available := new bool[n](_ => false);
      chattingTo := new int[n](_ => -1);
      userData := new Option<User>[n](_ => None);
      connected := new bool[n](_ => false);
      log := [];
    }

    ghost predicate Valid()
      reads this, available, chattingTo, userData, connected
    {
      && available != connected
      && Sized(State())
    }

    ghost function State(): Chat
      reads this, available, chattingTo, userData, connected
    {
      Chat(available[..], chattingTo[..], userData[..], connected[..], log)
    }

    method Send(to: int, msg: Message)
      modifies `log
      ensures log == if to >= 0 then old(log) + [Sent(to, msg)] else old(log)
    {
      if to >= 0 {
        log := log + [Sent(to, msg)];
      }
    }

    /** The search for a partner. */
    method Search(accepts: Filter, fd: nat, self: User) returns (m: int)
      requires Valid() && fd < available.Length
      ensures m == Lowest(accepts, State(), self, fd, 0)
    {
      m := -1;
      ghost var s := State();
      var i := 0;
      while i < available.Length
        invariant i <= available.Length && Valid() && State() == s
        invariant Lowest(accepts, s, self, fd, 0) == Lowest(accepts, s, self, fd, i)
      {
        if i != fd && available[i] && userData[i].Some? {
          if accepts(self, userData[i].value) && accepts(userData[i].value, self) {
            return i;
          }
        }
        i := i + 1;
      }
    }

    method HandleTryMatch(accepts: Filter, fd: nat, user: User)
      requires Valid() && fd < available.Length
      modifies this, available, chattingTo, userData
      ensures Valid() && State() == Matching(accepts, old(State()), fd, user)
    {
      Send(fd, TryMatchEcho);
      userData[fd] := Some(user);
      available[fd] := true;
      assert State() == Enter(old(State()), fd, user);
      var m := Search(accepts, fd, user);
      if m != -1 {
        ghost var entered := State();
        assert Suits(accepts, entered, user, fd, m);
        available[fd] := false;
        available[m] := false;
        chattingTo[fd] := m;
        chattingTo[m] := fd;
        Send(m, Matched(userData[fd].value));
        Send(fd, Matched(userData[m].value));
        assert State() == Pair(entered, fd, m);
      }
    }

    method HandleSay(fd: nat, text: Text)
      requires Valid() && fd < available.Length
      modifies `log
      ensures Valid() && State() == Saying(old(State()), fd, text)
    {
      Send(fd, SayEcho(text));
      Send(chattingTo[fd], Receive(text));
    }

    method EndOfChat(fd: nat)
      requires Valid() && fd < available.Length
      modifies this, available, chattingTo, userData
      ensures Valid() && State() == EndChat(old(State()), fd)
    {
      if chattingTo[fd] >= 0 {
        var p := chattingTo[fd];
        Send(p, OtherSideQuit);
        userData[p] := None;
        chattingTo[p] := -1;
        available[p] := false;
        chattingTo[fd] := -1;
        assert State() == EndChat(old(State()), fd);
      }
    }

    method HandleQuit(fd: nat)
      requires Valid() && fd < available.Length
      modifies this, available, chattingTo, userData
      ensures Valid() && State() == Leaving(old(State()), fd)
    {
      Send(fd, QuitEcho);
      userData[fd] := None;
      available[fd] := false;
      EndOfChat(fd);
    }

    method HandleClose(fd: nat)
      requires Valid() && fd < available.Length
      modifies this, available, chattingTo, userData, connected
      ensures Valid() && State() == Closing(old(State()), fd)
    {
      if userData[fd].Some? {
        userData[fd] := None;
        available[fd] := false;
      }
      EndOfChat(fd);
      connected[fd] := false;
    }
  }
}
