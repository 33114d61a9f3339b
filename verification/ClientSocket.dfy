/** The protocol by which the threads of one httplib client share its socket: `send` under the recursive
    request mutex, critical sections under the socket mutex, a count of requests in flight, and `stop`.
    A step is one action of one thread, so a run is an arbitrary interleaving. */
module ClientSocket {
  import opened Text

  /** `shut` once both directions have been shut down. */
  datatype Socket = Closed | Open(id: nat, shut: bool)

  /** Where a thread is. The `...Holding` and `...Done` places own the socket mutex. */
  datatype Place =
    | Resting
    | SendLocked | SendHolding | SendDone | SendFailed | FailReturn
    | CloseHolding | CloseDone
    | FinishHolding | FinishDone | FinishReturn
    | StopHolding | StopDone

  /** `using` are the sockets of the thread's requests in flight, innermost last: a redirect sends a
      nested request from within the outer one. */
  datatype Thread = Thread(using: seq<nat>, at: Place)

  datatype Client = Client(
    threads: seq<Thread>,
    requestOwner: Option<nat>, requestDepth: nat, socketOwner: Option<nat>,
    inFlight: int, fromThread: Option<nat>, closeWhenDone: bool, socket: Socket, nextSocket: nat)

  /** `alive` is what `is_socket_alive` reports (true of a socket that was shut, while there is data to read from it),
      `connected` whether connecting works, `close` whether the connection is not kept alive or the request failed. */
  datatype Label =
    | SendLock(t: nat) | SendEnter(t: nat) | SendOpen(t: nat, alive: bool, connected: bool)
    | CloseEnter(t: nat) | CloseDo(t: nat)
    | FinishEnter(t: nat) | FinishDo(t: nat, close: bool)
    | StopEnter(t: nat) | StopDo(t: nat)
    | Leave(t: nat) | Unlock(t: nat)

  predicate Enabled(s: Client, l: Label) {
    && l.t < |s.threads|
    && var at := s.threads[l.t].at;
    match l
    case SendLock(t) => at == Resting && (s.requestOwner == None || s.requestOwner == Some(t))
    case SendEnter(_) => at == SendLocked && s.socketOwner == None
    case SendOpen(_, alive, _) => at == SendHolding && (alive ==> s.socket.Open?)
    case CloseEnter(t) => at == Resting && s.threads[t].using != [] && s.socketOwner == None
    case CloseDo(_) => at == CloseHolding
    case FinishEnter(t) => at == Resting && s.threads[t].using != [] && s.socketOwner == None
    case FinishDo(_, _) => at == FinishHolding
    case StopEnter(_) => at == Resting && s.socketOwner == None
    case StopDo(_) => at == StopHolding
    case Leave(_) => at == SendDone || at == SendFailed || at == CloseDone || at == FinishDone || at == StopDone
    case Unlock(_) => at == FailReturn || at == FinishReturn
  }

  function Move(s: Client, t: nat, at: Place): Client
    requires t < |s.threads|
  {
    s.(threads := s.threads[t := s.threads[t].(at := at)])
  }

  /** `shutdown_ssl`, `shutdown_socket`, `close_socket`. */
  function CloseSocket(s: Client): Client { s.(socket := Closed) }

  function AfterLeaving(at: Place): Place {
    match at
    case SendFailed => FailReturn
    case FinishDone => FinishReturn
    case _ => Resting
  }

  function Step(s: Client, l: Label): (r: Client)
    requires Enabled(s, l)
    ensures |r.threads| == |s.threads|
  {
    match l
    case SendLock(t) =>
      Move(s, t, SendLocked).(requestOwner := Some(t), requestDepth := s.requestDepth + 1)
    case SendEnter(t) => Move(s, t, SendHolding).(socketOwner := Some(t))
    case SendOpen(t, alive, connected) =>
      var s1 := s.(closeWhenDone := false);
      var s2 := if alive then s1 else CloseSocket(s1);
      if !alive && !connected then Move(s2, t, SendFailed)
      else
        var s3 := if alive then s2 else s2.(socket := Open(s.nextSocket, false), nextSocket := s.nextSocket + 1);
        s3.(inFlight := s.inFlight + 1, fromThread := Some(t),
            threads := s.threads[t := Thread(s.threads[t].using + [s3.socket.id], SendDone)])
    case CloseEnter(t) => Move(s, t, CloseHolding).(socketOwner := Some(t))
    case CloseDo(t) => CloseSocket(Move(s, t, CloseDone))
    case FinishEnter(t) => Move(s, t, FinishHolding).(socketOwner := Some(t))
    case FinishDo(t, close) =>
      var using := s.threads[t].using;
      var s1 := s.(inFlight := s.inFlight - 1,
                   fromThread := if s.inFlight - 1 <= 0 then None else s.fromThread,
                   threads := s.threads[t := Thread(if using == [] then [] else using[..|using| - 1], FinishDone)]);
      if s.closeWhenDone || close then CloseSocket(s1) else s1
    case StopEnter(t) => Move(s, t, StopHolding).(socketOwner := Some(t))
    case StopDo(t) =>
      if s.inFlight > 0 then
        Move(s, t, StopDone).(socket := if s.socket.Open? then s.socket.(shut := true) else Closed,
            closeWhenDone := true)
      else CloseSocket(Move(s, t, StopDone))
    case Leave(t) => Move(s, t, AfterLeaving(s.threads[t].at)).(socketOwner := None)
    case Unlock(t) =>
      Move(s, t, Resting).(requestDepth := if s.requestDepth == 0 then 0 else s.requestDepth - 1,
                           requestOwner := if s.requestDepth <= 1 then None else s.requestOwner)
  }

  /** The assertion of `shutdown_ssl` and `close_socket`. */
  predicate MayClose(inFlight: int, fromThread: Option<nat>, t: nat) {
    inFlight == 0 || fromThread == Some(t)
  }

  /** Every assertion the action passes through holds. */
  predicate AssertionsHold(s: Client, l: Label)
    requires Enabled(s, l)
  {
    match l
    case SendOpen(t, alive, connected) =>
      && (s.socket.Open? && !alive ==> MayClose(s.inFlight, s.fromThread, t))
      && ((alive || connected) && s.inFlight > 1 ==> s.fromThread == Some(t))
    case CloseDo(t) => MayClose(s.inFlight, s.fromThread, t)
    case FinishDo(t, close) =>
      && (s.inFlight - 1 <= 0 ==> s.inFlight - 1 == 0)
      && (s.closeWhenDone || close ==>
            MayClose(s.inFlight - 1, if s.inFlight - 1 <= 0 then None else s.fromThread, t))
    case StopDo(t) => s.inFlight <= 0 ==> MayClose(s.inFlight, s.fromThread, t)
    case _ => true
  }

  function Initial(n: nat): Client {
    Client(seq(n, _ => Thread([], Resting)), None, 0, None, 0, None, false, Closed, 0)
  }

  predicate IsRun(s: Client, ls: seq<Label>)
    decreases |ls|
  {
    ls == [] || (Enabled(s, ls[0]) && IsRun(Step(s, ls[0]), ls[1..]))
  }

  function Run(s: Client, ls: seq<Label>): (r: Client)
    requires IsRun(s, ls)
    ensures |r.threads| == |s.threads|
    decreases |ls|
  {
    if ls == [] then s else Run(Step(s, ls[0]), ls[1..])
  }

  // ----- invariants -----

  /** How often a thread holds the request mutex. */
  function Held(th: Thread): nat {
    |th.using| +
    match th.at
    case SendLocked => 1
    case SendHolding => 1
    case SendFailed => 1
    case FailReturn => 1
    case FinishDone => 1
    case FinishReturn => 1
    case _ => 0
  }

  predicate OwnsSocketMutex(at: Place) {
    match at
    case SendHolding => true
    case SendDone => true
    case SendFailed => true
    case CloseHolding => true
    case CloseDone => true
    case FinishHolding => true
    case FinishDone => true
    case StopHolding => true
    case StopDone => true
    case _ => false
  }

  predicate RequestMutex(s: Client) {
    && (s.requestOwner == None <==> s.requestDepth == 0)
    && (s.requestOwner.Some? ==> s.requestOwner.value < |s.threads|)
    && forall t | 0 <= t < |s.threads| :: Held(s.threads[t]) == if s.requestOwner == Some(t) then s.requestDepth else 0
  }

  predicate SocketMutex(s: Client) {
    && (s.socketOwner.Some? ==> s.socketOwner.value < |s.threads|)
    && forall t | 0 <= t < |s.threads| :: OwnsSocketMutex(s.threads[t].at) <==> s.socketOwner == Some(t)
  }

  predicate InRequest(at: Place) { at == CloseHolding || at == CloseDone || at == FinishHolding }

  /** Requests are in flight only in the thread that owns the request mutex, and it is the recorded one. */
  predicate FlightCount(s: Client) {
    && s.inFlight == (if s.requestOwner.Some? && s.requestOwner.value < |s.threads|
                      then |s.threads[s.requestOwner.value].using| else 0)
    && s.fromThread == (if s.inFlight > 0 then s.requestOwner else None)
    && forall t | 0 <= t < |s.threads| :: InRequest(s.threads[t].at) || s.threads[t].at == SendDone ==>
        s.threads[t].using != []
  }

  predicate Inv(s: Client) { RequestMutex(s) && SocketMutex(s) && FlightCount(s) }

  lemma {:induction false} InitialInv(n: nat)
    ensures Inv(Initial(n))
  {
  }

  predicate Sending(l: Label) { l.SendLock? || l.SendEnter? || l.SendOpen? }

  predicate Closing(l: Label) { l.CloseEnter? || l.CloseDo? || l.StopEnter? || l.StopDo? }

  lemma {:induction false} SendKeepsMutexes(s: Client, l: Label)
    requires Inv(s) && Enabled(s, l) && Sending(l)
    ensures RequestMutex(Step(s, l)) && SocketMutex(Step(s, l))
  {
  }

  lemma {:induction false} CloseKeepsMutexes(s: Client, l: Label)
    requires Inv(s) && Enabled(s, l) && Closing(l)
    ensures RequestMutex(Step(s, l)) && SocketMutex(Step(s, l))
  {
    var th := s.threads[l.t];
    var s1 := Step(s, l);
    assert s1.threads == s.threads[l.t := Thread(th.using, s1.threads[l.t].at)];
    assert Held(s1.threads[l.t]) == Held(th);
  }

  lemma {:induction false} FinishKeepsMutexes(s: Client, l: Label)
    requires Inv(s) && Enabled(s, l) && (l.FinishEnter? || l.FinishDo?)
    ensures RequestMutex(Step(s, l)) && SocketMutex(Step(s, l))
  {
  }

  lemma {:induction false} ReleaseKeepsMutexes(s: Client, l: Label)
    requires Inv(s) && Enabled(s, l) && (l.Leave? || l.Unlock?)
    ensures RequestMutex(Step(s, l)) && SocketMutex(Step(s, l))
  {
    assert Held(s.threads[l.t]) > 0 ==> s.requestOwner == Some(l.t);
  }

  lemma {:induction false} MutexesKept(s: Client, l: Label)
    requires Inv(s) && Enabled(s, l)
    ensures RequestMutex(Step(s, l)) && SocketMutex(Step(s, l))
  {
    if Sending(l) {
      SendKeepsMutexes(s, l);
    } else if Closing(l) {
      CloseKeepsMutexes(s, l);
    } else if l.FinishEnter? || l.FinishDo? {
      FinishKeepsMutexes(s, l);
    } else {
      ReleaseKeepsMutexes(s, l);
    }
  }

  lemma {:induction false} CountChanged(s: Client, l: Label)
    requires Inv(s) && Enabled(s, l) && (l.SendOpen? || l.FinishDo? || l.Unlock?)
    ensures FlightCount(Step(s, l))
  {
    assert Held(s.threads[l.t]) > 0 && s.requestOwner == Some(l.t);
  }

  lemma {:induction false} CountKept(s: Client, l: Label)
    requires Inv(s) && Enabled(s, l)
    ensures FlightCount(Step(s, l))
  {
    if l.SendOpen? || l.FinishDo? || l.Unlock? {
      CountChanged(s, l);
    } else {
      assert s.threads[l.t].using == Step(s, l).threads[l.t].using;
    }
  }

  lemma {:induction false} StepKeeps(s: Client, l: Label)
    requires Inv(s) && Enabled(s, l)
    ensures Inv(Step(s, l))
  {
    MutexesKept(s, l);
    CountKept(s, l);
  }

  lemma {:induction false} RunKeeps(s: Client, ls: seq<Label>)
    requires Inv(s) && IsRun(s, ls)
    ensures Inv(Run(s, ls))
    decreases |ls|
  {
    if ls != [] {
      StepKeeps(s, ls[0]);
      RunKeeps(Step(s, ls[0]), ls[1..]);
    }
  }

  /** In every interleaving: while requests are in flight, the recorded thread owns the request mutex
      and all of them are its own. */
  lemma {:induction false} FlightOwner(n: nat, ls: seq<Label>)
    requires IsRun(Initial(n), ls)
    ensures var s := Run(Initial(n), ls);
            && s.inFlight >= 0
            && (s.inFlight > 0 ==> s.fromThread.Some? && s.requestOwner == s.fromThread && s.fromThread.value < n
                                   && s.inFlight == |s.threads[s.fromThread.value].using|)
            && (forall t | 0 <= t < n && s.fromThread != Some(t) :: s.threads[t].using == [])
  {
    InitialInv(n);
    RunKeeps(Initial(n), ls);
    var s := Run(Initial(n), ls);
    forall t | 0 <= t < n && s.fromThread != Some(t) ensures s.threads[t].using == [] {
      assert Held(s.threads[t]) >= |s.threads[t].using|;
    }
  }

  lemma {:induction false} StepIsSafe(s: Client, l: Label)
    requires Inv(s) && Enabled(s, l)
    ensures AssertionsHold(s, l)
    ensures s.socket.Open? && Step(s, l).socket != s.socket && Step(s, l).socket != s.socket.(shut := true) ==>
              forall u | 0 <= u < |s.threads| && u != l.t :: s.threads[u].using == []
  {
    forall u | 0 <= u < |s.threads| ensures s.threads[u].using != [] ==> s.requestOwner == Some(u) {
      assert Held(s.threads[u]) >= |s.threads[u].using|;
    }
    assert Held(s.threads[l.t]) > 0 ==> s.requestOwner == Some(l.t);
  }

  /** In every interleaving no assertion fails, and a socket is closed or replaced only when no other
      thread has a request in flight. */
  lemma {:induction false} NoOtherRequestLosesItsSocket(n: nat, ls: seq<Label>, l: Label)
    requires IsRun(Initial(n), ls) && Enabled(Run(Initial(n), ls), l)
    ensures var s := Run(Initial(n), ls);
            && AssertionsHold(s, l)
            && (s.socket.Open? && Step(s, l).socket != s.socket && Step(s, l).socket != s.socket.(shut := true) ==>
                  forall u | 0 <= u < |s.threads| && u != l.t :: s.threads[u].using == [])
  {
    InitialInv(n);
    RunKeeps(Initial(n), ls);
    StepIsSafe(Run(Initial(n), ls), l);
  }

  // ----- no deadlock -----

  /** The next action of a thread that is inside a call. */
  function Next(s: Client, t: nat): Label
    requires t < |s.threads| && s.threads[t].at != Resting
  {
    match s.threads[t].at
    case SendLocked => SendEnter(t)
    case SendHolding => SendOpen(t, false, false)
    case CloseHolding => CloseDo(t)
    case FinishHolding => FinishDo(t, false)
    case StopHolding => StopDo(t)
    case FailReturn => Unlock(t)
    case FinishReturn => Unlock(t)
    case _ => Leave(t)
  }

  lemma {:induction false} GoesOnOrWaits(s: Client, t: nat)
    requires Inv(s) && t < |s.threads| && s.threads[t].at != Resting
    ensures Enabled(s, Next(s, t)) || (s.threads[t].at == SendLocked && s.socketOwner.Some?)
  {
  }

  /** A thread inside a call can go on, or waits for the owner of the socket mutex, who can. */
  lemma {:induction false} NoDeadlock(n: nat, ls: seq<Label>, t: nat)
    requires IsRun(Initial(n), ls) && t < n && Run(Initial(n), ls).threads[t].at != Resting
    ensures var s := Run(Initial(n), ls);
            || Enabled(s, Next(s, t))
            || (&& s.socketOwner.Some? && s.socketOwner.value < n
                && s.threads[s.socketOwner.value].at != Resting && Enabled(s, Next(s, s.socketOwner.value)))
  {
    InitialInv(n);
    RunKeeps(Initial(n), ls);
    var s := Run(Initial(n), ls);
    GoesOnOrWaits(s, t);
    if s.socketOwner.Some? {
      assert OwnsSocketMutex(s.threads[s.socketOwner.value].at);
      GoesOnOrWaits(s, s.socketOwner.value);
    }
  }

  // ----- is a stop honoured? -----

  /** `stop` found requests in flight: the socket is shut and to be closed when they are done. */
  ghost predicate StopPending(s: Client) { s.closeWhenDone && s.inFlight > 0 }

  /** As long as no further request is opened on top, the last request in flight closes the socket. */
  lemma {:induction false} StopIsHonoured(s: Client, ls: seq<Label>)
    requires Inv(s) && StopPending(s) && IsRun(s, ls)
    requires forall i | 0 <= i < |ls| :: !ls[i].SendOpen?
    ensures var s' := Run(s, ls); StopPending(s') || s'.socket == Closed
    decreases |ls|
  {
    if ls != [] {
      var s1 := Step(s, ls[0]);
      StepKeeps(s, ls[0]);
      if StopPending(s1) {
        StopIsHonoured(s1, ls[1..]);
      } else {
        StaysClosed(s1, ls[1..]);
      }
    }
  }

  lemma {:induction false} StaysClosed(s: Client, ls: seq<Label>)
    requires s.socket == Closed && IsRun(s, ls) && forall i | 0 <= i < |ls| :: !ls[i].SendOpen?
    ensures Run(s, ls).socket == Closed
    decreases |ls|
  {
    if ls != [] {
      StaysClosed(Step(s, ls[0]), ls[1..]);
    }
  }

  /** Only a nested request clears the flag of a pending stop: one that the thread in flight sends from within its
      request. */
  lemma {:induction false} OnlyNestedSendForgetsStop(s: Client, l: Label)
    requires Inv(s) && StopPending(s) && Enabled(s, l)
    ensures !Step(s, l).closeWhenDone <==> l.SendOpen?
    ensures l.SendOpen? ==> s.fromThread == Some(l.t) && s.threads[l.t].using != []
  {
    assert Held(s.threads[l.t]) > 0 ==> s.requestOwner == Some(l.t);
  }

  /** The request connected, or found the socket alive and kept it. */
  predicate Opens(l: Label) { l.SendOpen? && (l.alive || l.connected) }

  /** After this action the socket is closed, or will be when the requests in flight are done. */
  predicate Shuts(l: Label) {
    l.StopDo? || l.CloseDo? || (l.FinishDo? && l.close) || (l.SendOpen? && !l.alive && !l.connected)
  }

  /** Action `k` opened the socket and none of the actions after it shuts it. */
  predicate OpenSince(ls: seq<Label>, k: nat) {
    k < |ls| && Opens(ls[k]) && forall j | k < j < |ls| :: !Shuts(ls[j])
  }

  ghost predicate LeftOpen(ls: seq<Label>) { exists k: nat :: OpenSince(ls, k) }

  lemma {:induction false} LeftOpenSnoc(ls: seq<Label>, l: Label)
    ensures LeftOpen(ls + [l]) <==> Opens(l) || (LeftOpen(ls) && !Shuts(l))
  {
    var more := ls + [l];
    assert more[|ls|] == l;
    assert OpenSince(more, |ls|) <==> Opens(l);
    forall k: nat | k < |ls| ensures OpenSince(more, k) <==> OpenSince(ls, k) && !Shuts(l) {
      assert forall j | 0 <= j < |ls| :: more[j] == ls[j];
    }
    if LeftOpen(more) {
      var k: nat :| OpenSince(more, k);
      assert k == |ls| || OpenSince(ls, k);
    }
    if LeftOpen(ls) && !Shuts(l) {
      var k: nat :| OpenSince(ls, k);
      assert OpenSince(more, k);
    }
  }

  lemma {:induction false} LeftOpenAfterStop(before: seq<Label>, t: nat, after: seq<Label>)
    ensures LeftOpen(before + [StopDo(t)] + after) <==> LeftOpen(after)
    decreases |after|
  {
    if after == [] {
      LeftOpenSnoc(before, StopDo(t));
      assert before + [StopDo(t)] + after == before + [StopDo(t)];
    } else {
      var front, last := after[..|after| - 1], after[|after| - 1];
      LeftOpenAfterStop(before, t, front);
      LeftOpenSnoc(front, last);
      LeftOpenSnoc(before + [StopDo(t)] + front, last);
      assert front + [last] == after;
      assert before + [StopDo(t)] + front + [last] == before + [StopDo(t)] + after;
    }
  }

  /** The socket is open and to stay open exactly when the actions so far left it open, and while no request is in
      flight no closing is pending. */
  ghost predicate Tracked(s: Client, past: seq<Label>) {
    && (s.socket.Open? && !s.closeWhenDone <==> LeftOpen(past))
    && (s.socket.Open? && s.closeWhenDone ==> s.inFlight > 0)
  }

  lemma {:induction false} StepTracked(s: Client, past: seq<Label>, l: Label)
    requires Inv(s) && Tracked(s, past) && Enabled(s, l)
    ensures Tracked(Step(s, l), past + [l])
  {
    LeftOpenSnoc(past, l);
  }

  lemma {:induction false} RunTracked(s: Client, past: seq<Label>, ls: seq<Label>)
    requires Inv(s) && Tracked(s, past) && IsRun(s, ls)
    ensures Tracked(Run(s, ls), past + ls)
    decreases |ls|
  {
    if ls == [] {
      assert past + ls == past;
    } else {
      StepKeeps(s, ls[0]);
      StepTracked(s, past, ls[0]);
      RunTracked(Step(s, ls[0]), past + [ls[0]], ls[1..]);
      assert past + [ls[0]] + ls[1..] == past + ls;
    }
  }

  /** In every interleaving: when no request is in flight the socket is open exactly when a request opened or kept it
      and since then nothing shut it, be it a stop, a closing, a request that ended with closing, or one that failed to
      connect. */
  lemma {:induction false} OpenAtRestExactlyWhen(n: nat, ls: seq<Label>)
    requires IsRun(Initial(n), ls) && Run(Initial(n), ls).inFlight == 0
    ensures Run(Initial(n), ls).socket.Open? <==> LeftOpen(ls)
  {
    InitialInv(n);
    RunTracked(Initial(n), [], ls);
    assert [] + ls == ls;
  }

  /** Requests are in flight until the last action of the run, which ends the last of them. */
  predicate RequestsEnd(s: Client, ls: seq<Label>)
    requires IsRun(s, ls)
    decreases |ls|
  {
    if ls == [] then s.inFlight == 0 else s.inFlight > 0 && RequestsEnd(Step(s, ls[0]), ls[1..])
  }

  lemma {:induction false} SendsAreNested(s: Client, t: nat, ls: seq<Label>)
    requires Inv(s) && s.fromThread == Some(t) && IsRun(s, ls) && RequestsEnd(s, ls)
    ensures Run(s, ls).inFlight == 0
    ensures forall i | 0 <= i < |ls| :: ls[i].SendOpen? ==> ls[i].t == t
    decreases |ls|
  {
    if ls != [] {
      var l := ls[0];
      var s1 := Step(s, l);
      StepKeeps(s, l);
      assert Held(s.threads[l.t]) > 0 ==> s.requestOwner == Some(l.t);
      if s1.inFlight > 0 {
        assert s1.fromThread == Some(t);
        SendsAreNested(s1, t, ls[1..]);
      }
    }
  }

  lemma {:induction false} RunAppend(s: Client, a: seq<Label>, b: seq<Label>)
    requires IsRun(s, a) && IsRun(Run(s, a), b)
    ensures IsRun(s, a + b) && Run(s, a + b) == Run(Run(s, a), b)
    decreases |a|
  {
    if a == [] {
      assert a + b == b;
    } else {
      RunAppend(Step(s, a[0]), a[1..], b);
      assert (a + b)[1..] == a[1..] + b;
    }
  }

  /** A stop that found requests in flight leaves the socket closed once they are done, exactly unless a request that
      their thread sends from within them opens or keeps the socket and nothing shuts it after that. */
  lemma {:induction false} StopHonouredExactlyWhen(n: nat, before: seq<Label>, t: nat, after: seq<Label>)
    requires IsRun(Initial(n), before)
    requires var s := Run(Initial(n), before);
             && s.inFlight > 0 && Enabled(s, StopDo(t))
             && IsRun(Step(s, StopDo(t)), after) && RequestsEnd(Step(s, StopDo(t)), after)
    ensures var s := Run(Initial(n), before);
            && (Run(Step(s, StopDo(t)), after).socket == Closed <==> !LeftOpen(after))
            && forall i | 0 <= i < |after| :: after[i].SendOpen? ==> s.fromThread == Some(after[i].t)
  {
    InitialInv(n);
    RunKeeps(Initial(n), before);
    var s := Run(Initial(n), before);
    var s1 := Step(s, StopDo(t));
    StepKeeps(s, StopDo(t));
    SendsAreNested(s1, s1.fromThread.value, after);
    RunSplit(s, StopDo(t), []);
    RunAppend(Initial(n), before, [StopDo(t)]);
    RunAppend(Initial(n), before + [StopDo(t)], after);
    LeftOpenAfterStop(before, t, after);
    OpenAtRestExactlyWhen(n, before + [StopDo(t)] + after);
  }

  // ----- which socket a request uses, and whether it was cut -----

  /** The request found no live socket and connected anew. */
  predicate Connects(l: Label) { l.SendOpen? && !l.alive && l.connected }

  function Connections(ls: seq<Label>): nat {
    if ls == [] then 0 else Connections(ls[..|ls| - 1]) + if Connects(ls[|ls| - 1]) then 1 else 0
  }

  /** A stop came after the last connection. */
  predicate StoppedSince(ls: seq<Label>) {
    ls != [] && (ls[|ls| - 1].StopDo? || (!Connects(ls[|ls| - 1]) && StoppedSince(ls[..|ls| - 1])))
  }

  /** The innermost request of the thread is served by the open socket. */
  predicate UsesTheSocket(s: Client, t: nat) {
    && s.socket.Open? && t < |s.threads| && s.threads[t].using != []
    && s.threads[t].using[|s.threads[t].using| - 1] == s.socket.id
  }

  /** The socket is that of the newest connection, is shut when a stop came after it, and serves the request that was
      opened last. */
  ghost predicate Newest(s: Client, past: seq<Label>) {
    && s.nextSocket == Connections(past)
    && (s.socket.Open? ==> s.socket.id + 1 == Connections(past) && (s.socket.shut <==> StoppedSince(past)))
    && (past != [] && Opens(past[|past| - 1]) ==> UsesTheSocket(s, past[|past| - 1].t))
  }

  lemma {:induction false} NewestKept(s: Client, past: seq<Label>, l: Label)
    requires Newest(s, past) && Enabled(s, l)
    ensures Newest(Step(s, l), past + [l])
  {
    assert (past + [l])[..|past|] == past;
  }

  lemma {:induction false} NewestInRun(s: Client, past: seq<Label>, ls: seq<Label>)
    requires Newest(s, past) && IsRun(s, ls)
    ensures Newest(Run(s, ls), past + ls)
    decreases |ls|
  {
    if ls == [] {
      assert past + ls == past;
    } else {
      NewestKept(s, past, ls[0]);
      NewestInRun(Step(s, ls[0]), past + [ls[0]], ls[1..]);
      assert past + [ls[0]] + ls[1..] == past + ls;
    }
  }

  /** In every interleaving the open socket is that of the newest connection, it has been shut exactly when a stop came
      after that connection, and a request that gets a socket gets this one. */
  lemma {:induction false} RequestsUseTheNewestSocket(n: nat, ls: seq<Label>)
    requires IsRun(Initial(n), ls)
    ensures var s := Run(Initial(n), ls);
            && (s.socket.Open? ==> s.socket.id + 1 == Connections(ls) && (s.socket.shut <==> StoppedSince(ls)))
            && (ls != [] && Opens(ls[|ls| - 1]) ==> UsesTheSocket(s, ls[|ls| - 1].t))
  {
    NewestInRun(Initial(n), [], ls);
    assert [] + ls == ls;
  }

  // ----- a stop that is forgotten -----

  /** A request up to where its socket is in use. */
  function Requesting(t: nat, alive: bool): seq<Label> {
    [SendLock(t), SendEnter(t), SendOpen(t, alive, true), Leave(t)]
  }

  function Stopping(t: nat): seq<Label> { [StopEnter(t), StopDo(t), Leave(t)] }

  /** A request that ends well on a connection that is kept alive. */
  function Finishing(t: nat): seq<Label> { [FinishEnter(t), FinishDo(t, false), Leave(t), Unlock(t)] }

  lemma {:induction false} RunSplit(s: Client, l: Label, ls: seq<Label>)
    requires Enabled(s, l) && IsRun(Step(s, l), ls)
    ensures IsRun(s, [l] + ls) && Run(s, [l] + ls) == Run(Step(s, l), ls)
  {
    assert ([l] + ls)[1..] == ls;
  }

  /** The actions `ls` lead from `s` to `r`. */
  predicate Leads(s: Client, ls: seq<Label>, r: Client) { IsRun(s, ls) && Run(s, ls) == r }

  lemma {:induction false} LeadsOn(s: Client, a: seq<Label>, s1: Client, b: seq<Label>, s2: Client)
    requires Leads(s, a, s1) && Leads(s1, b, s2)
    ensures Leads(s, a + b, s2)
  {
    RunAppend(s, a, b);
  }

  lemma {:induction false} StepLeads(s: Client, l: Label, s1: Client, ls: seq<Label>, r: Client)
    requires Enabled(s, l) && Step(s, l) == s1 && Leads(s1, ls, r)
    ensures Leads(s, [l] + ls, r)
  {
    RunSplit(s, l, ls);
  }

  lemma {:induction false} FourSteps(s: Client, l0: Label, l1: Label, l2: Label, l3: Label)
    requires Enabled(s, l0)
    requires var s1 := Step(s, l0);
             Enabled(s1, l1) && var s2 := Step(s1, l1); Enabled(s2, l2) && Enabled(Step(s2, l2), l3)
    ensures Leads(s, [l0, l1, l2, l3], Step(Step(Step(Step(s, l0), l1), l2), l3))
  {
    var s1 := Step(s, l0);
    var s2 := Step(s1, l1);
    var s3 := Step(s2, l2);
    var r := Step(s3, l3);
    StepLeads(s3, l3, r, [], r);
    StepLeads(s2, l2, s3, [l3], r);
    StepLeads(s1, l1, s2, [l2, l3], r);
    StepLeads(s, l0, s1, [l1, l2, l3], r);
    assert [l0] + [l1, l2, l3] == [l0, l1, l2, l3];
  }

  /** The client of two threads, of which only the first ever sends. */
  function Two(using: seq<nat>, depth: nat, pending: bool, socket: Socket, next: nat): Client {
    var busy := if depth > 0 then Some(0) else None;
    Client([Thread(using, Resting), Thread([], Resting)], busy, depth, None, |using|,
           if |using| > 0 then Some(0) else None, pending, socket, next)
  }

  lemma {:induction false} RequestingLeads(
      s: Client, t: nat, using: seq<nat>, pending: bool, socket: Socket, next: nat, alive: bool)
    returns (r: Client)
    requires t == 0 && s == Two(using, |using|, pending, socket, next) && (alive ==> socket.Open?)
    ensures var now := if alive then socket else Open(next, false);
            r == Two(using + [now.id], |using| + 1, false, now, if alive then next else next + 1)
    ensures Leads(s, Requesting(t, alive), r)
  {
    var s1 := Step(s, SendLock(t));
    assert Enabled(s1, SendEnter(t));
    FourSteps(s, SendLock(t), SendEnter(t), SendOpen(t, alive, true), Leave(t));
    r := Run(s, Requesting(t, alive));
  }

  lemma {:induction false} StoppingLeads(s: Client, t: nat, using: seq<nat>, id: nat, next: nat) returns (r: Client)
    requires t == 1 && using != [] && s == Two(using, |using|, false, Open(id, false), next)
    ensures r == Two(using, |using|, true, Open(id, true), next)
    ensures Leads(s, Stopping(t), r)
  {
    var s1 := Step(s, StopEnter(t));
    var s2 := Step(s1, StopDo(t));
    r := Step(s2, Leave(t));
    StepLeads(s2, Leave(t), r, [], r);
    StepLeads(s1, StopDo(t), s2, [Leave(t)], r);
    StepLeads(s, StopEnter(t), s1, [StopDo(t), Leave(t)], r);
  }

  lemma {:induction false} FinishingLeads(s: Client, t: nat, using: seq<nat>, last: nat, socket: Socket, next: nat)
    returns (r: Client)
    requires t == 0 && s == Two(using + [last], |using| + 1, false, socket, next)
    ensures r == Two(using, |using|, false, socket, next)
    ensures Leads(s, Finishing(t), r)
  {
    assert (using + [last])[..|using|] == using;
    FourSteps(s, FinishEnter(t), FinishDo(t, false), Leave(t), Unlock(t));
    r := Run(s, Finishing(t));
  }

  /** A stop comes between a request and the redirect it follows. */
  function StoppedRedirect(t: nat, u: nat, alive: bool): seq<Label> {
    Requesting(t, false) + Stopping(u) + Requesting(t, alive) + Finishing(t) + Finishing(t)
  }

  lemma {:induction false} AllLead(
      s0: Client, a: seq<Label>, s1: Client, b: seq<Label>, s2: Client, c: seq<Label>, s3: Client, d: seq<Label>,
      s4: Client, r: Client)
    requires Leads(s0, a, s1) && Leads(s1, b, s2) && Leads(s2, c, s3) && Leads(s3, d, s4) && Leads(s4, d, r)
    ensures Leads(s0, a + b + c + d + d, r)
  {
    LeadsOn(s0, a, s1, b, s2);
    LeadsOn(s0, a + b, s2, c, s3);
    LeadsOn(s0, a + b + c, s3, d, s4);
    LeadsOn(s0, a + b + c + d, s4, d, r);
  }

  lemma {:induction false} StoppedRedirectLeads(s: Client, t: nat, u: nat, alive: bool) returns (r: Client)
    requires t == 0 && u == 1 && s == Two([], 0, false, Closed, 0)
    ensures r.inFlight == 0 && r.socket == if alive then Open(0, true) else Open(1, false)
    ensures Leads(s, StoppedRedirect(t, u, alive), r)
  {
    var next := if alive then 1 else 2;
    var s1 := RequestingLeads(s, t, [], false, Closed, 0, false);
    var one: seq<nat> := [] + [0];
    var s2 := StoppingLeads(s1, u, one, 0, 1);
    var s3 := RequestingLeads(s2, t, one, true, Open(0, true), 1, alive);
    var s4 := FinishingLeads(s3, t, one, s3.socket.id, s3.socket, next);
    r := FinishingLeads(s4, t, [], 0, s3.socket, next);
    AllLead(s, Requesting(t, false), s1, Stopping(u), s2, Requesting(t, alive), s3, Finishing(t), s4, r);
  }

  /** It does happen: while a stop is pending the thread in flight follows a redirect. The nested request clears the
      flag; it replaces the socket, or keeps the one that was shut when there is still data to read from it. When both
      requests are done the socket is open. */
  lemma {:induction false} ForgottenStop(alive: bool)
    ensures var ls := StoppedRedirect(0, 1, alive);
            && IsRun(Initial(2), ls)
            && Run(Initial(2), ls).inFlight == 0
            && Run(Initial(2), ls).socket == if alive then Open(0, true) else Open(1, false)
  {
    assert Initial(2) == Two([], 0, false, Closed, 0);
    var r := StoppedRedirectLeads(Initial(2), 0, 1, alive);
  }
}
