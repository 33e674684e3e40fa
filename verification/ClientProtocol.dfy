// How ClientImpl::send (nested for redirects and authentication) and ClientImpl::stop share one
// socket.  Every step is a section run under socket_mutex_, or a take or release of the recursive
// request_mutex_; any thread may take any enabled step at any time.

module ClientProtocol {

  type Thread = nat
  type Descriptor = nat

  datatype Option<T> = None | Some(value: T)

  // Where a send on the owner's stack is.
  datatype Place =
    | Entering    // request_mutex_ taken, socket section still ahead
    | InRequest   // counted in flight, talking to the server or inside a nested send
    | Leaving     // last socket section done or connection refused, request_mutex_ still held

  datatype Mark = Began | Stopped

  datatype Client = Client(
    owner: Option<Thread>,           // of request_mutex_
    sends: seq<Place>,               // the owner's nested sends, innermost last
    socket: Option<Descriptor>,
    inFlight: int,
    inFlightThread: Option<Thread>,
    shouldClose: bool,               // socket_should_be_closed_when_request_is_done_
    // history
    connected: nat,                  // descriptors 0 .. connected-1 have been handed out
    closed: seq<Descriptor>,
    marks: seq<Mark>,                // flag resets by send, deferred closes by stop
    failed: bool)                    // some assert of the source did not hold

  const START := Client(None, [], None, 0, None, false, 0, [], [], false)

  datatype Step =
    | LockRequest(t: Thread)
    | Prepare(t: Thread, alive: bool, connects: bool)
    | ServerCloses(t: Thread)   // "Connection: close" in process_request
    | Finish(t: Thread, ret: bool, closeConnection: bool)
    | Return(t: Thread)
    | Stop(t: Thread)

  predicate Top(s: Client, t: Thread, place: Place) {
    s.owner == Some(t) && s.sends != [] && s.sends[|s.sends| - 1] == place
  }

  predicate Enabled(s: Client, step: Step) {
    match step
    case LockRequest(t) => s.owner == None || Top(s, t, InRequest)
    case Prepare(t, _, _) => Top(s, t, Entering)
    case ServerCloses(t) => Top(s, t, InRequest)
    case Finish(t, _, _) => Top(s, t, InRequest)
    case Return(t) => Top(s, t, Leaving)
    case Stop(_) => true
  }

  function SetTop(s: Client, place: Place): Client
    requires s.sends != []
  {
    s.(sends := s.sends[|s.sends| - 1 := place])
  }

  // The assert shared by shutdown_ssl and close_socket.
  function CheckOwner(s: Client, t: Thread): Client {
    s.(failed := s.failed || !(s.inFlight == 0 || s.inFlightThread == Some(t)))
  }

  // shutdown_ssl, shutdown_socket, close_socket.
  function Close(s: Client, t: Thread): Client {
    var s1 := CheckOwner(s, t);
    if s1.socket == None then s1
    else s1.(closed := s1.closed + [s1.socket.value], socket := None)
  }

  function PrepareSocket(s: Client, t: Thread, alive: bool, connects: bool): Client
    requires s.sends != []
  {
    var s1 := s.(shouldClose := false, marks := s.marks + [Began]);
    var isAlive := s1.socket != None && alive;
    var s2 := if s1.socket != None && !alive then Close(s1, t) else s1;
    if !isAlive && !connects then SetTop(s2, Leaving)
    else
      var s3 := if isAlive then s2 else s2.(socket := Some(s2.connected), connected := s2.connected + 1);
      var s4 := if s3.inFlight > 1 then
                  s3.(failed := s3.failed || s3.inFlightThread != Some(t))
                else s3;
      SetTop(s4.(inFlight := s4.inFlight + 1, inFlightThread := Some(t)), InRequest)
  }

  function FinishRequest(s: Client, t: Thread, ret: bool, closeConnection: bool): Client
    requires s.sends != []
  {
    var s1 := s.(inFlight := s.inFlight - 1);
    var s2 := if s1.inFlight <= 0 then
                s1.(failed := s1.failed || s1.inFlight != 0, inFlightThread := None)
              else s1;
    var s3 := if s2.shouldClose || closeConnection || !ret then Close(s2, t) else s2;
    SetTop(s3, Leaving)
  }

  function Apply(s: Client, step: Step): Client
    requires Enabled(s, step)
  {
    match step
    case LockRequest(t) => s.(owner := Some(t), sends := s.sends + [Entering])
    case Prepare(t, alive, connects) => PrepareSocket(s, t, alive, connects)
    case ServerCloses(t) => Close(s, t)
    case Finish(t, ret, closeConnection) => FinishRequest(s, t, ret, closeConnection)
    case Return(t) =>
      var rest := s.sends[..|s.sends| - 1];
      s.(sends := rest, owner := if rest == [] then None else s.owner)
    case Stop(t) =>
      if s.inFlight > 0 then s.(shouldClose := true, marks := s.marks + [Stopped])
      else Close(s, t)
  }

  predicate IsRun(s: Client, steps: seq<Step>)
    decreases |steps|
  {
    steps == [] || (Enabled(s, steps[0]) && IsRun(Apply(s, steps[0]), steps[1..]))
  }

  function Exec(s: Client, steps: seq<Step>): Client
    requires IsRun(s, steps)
    decreases |steps|
  {
    if steps == [] then s else Exec(Apply(s, steps[0]), steps[1..])
  }

  ghost predicate Reachable(s: Client) {
    exists steps :: IsRun(START, steps) && Exec(START, steps) == s
  }

  // ------------------------------------------------------------------------------------------
  // The invariant

  // How many sends are between their two socket sections.
  function Active(s: Client): nat {
    if s.sends == [] then 0
    else if s.sends[|s.sends| - 1] == InRequest then |s.sends| else |s.sends| - 1
  }

  ghost predicate Nested(s: Client) {
    && (s.owner == None <==> s.sends == [])
    && forall i | 0 <= i < |s.sends| - 1 :: s.sends[i] == InRequest
  }

  ghost predicate Counted(s: Client) {
    && s.inFlight == Active(s)
    && s.inFlightThread == (if s.inFlight > 0 then s.owner else None)
    && !s.failed
  }

  ghost predicate DescriptorsAccounted(s: Client) {
    && (forall i | 0 <= i < |s.closed| :: s.closed[i] < s.connected)
    && (forall i, j | 0 <= i < j < |s.closed| :: s.closed[i] != s.closed[j])
    && (s.socket != None ==> s.socket.value < s.connected && s.socket.value !in s.closed)
    && (forall d: nat | d < s.connected :: s.socket == Some(d) || d in s.closed)
  }

  ghost predicate FlagIsPendingStop(s: Client) {
    s.shouldClose <==> s.marks != [] && s.marks[|s.marks| - 1] == Stopped
  }

  ghost predicate Inv(s: Client) {
    Nested(s) && Counted(s) && DescriptorsAccounted(s) && FlagIsPendingStop(s)
  }

  lemma CloseKeepsDescriptors(s: Client, t: Thread)
    requires DescriptorsAccounted(s)
    ensures DescriptorsAccounted(Close(s, t)) && Close(s, t).socket == None
  {
  }

  lemma ConnectKeepsDescriptors(s: Client)
    requires DescriptorsAccounted(s) && s.socket == None
    ensures DescriptorsAccounted(s.(socket := Some(s.connected), connected := s.connected + 1))
  {
  }

  lemma StepKeepsNesting(s: Client, step: Step)
    requires Nested(s) && Counted(s) && Enabled(s, step)
    ensures Nested(Apply(s, step)) && Counted(Apply(s, step))
  {
    hide PrepareSocket, FinishRequest;
    match step
    case Prepare(t, alive, connects) => PrepareKeepsNesting(s, t, alive, connects);
    case Finish(t, ret, closeConnection) => FinishKeepsNesting(s, t, ret, closeConnection);
    case _ =>
  }

  lemma PrepareKeepsNesting(s: Client, t: Thread, alive: bool, connects: bool)
    requires Nested(s) && Counted(s) && Top(s, t, Entering)
    ensures var s' := PrepareSocket(s, t, alive, connects); Nested(s') && Counted(s')
  {
  }

  lemma FinishKeepsNesting(s: Client, t: Thread, ret: bool, closeConnection: bool)
    requires Nested(s) && Counted(s) && Top(s, t, InRequest)
    ensures var s' := FinishRequest(s, t, ret, closeConnection); Nested(s') && Counted(s')
  {
  }

  lemma StepKeepsDescriptors(s: Client, step: Step)
    requires DescriptorsAccounted(s) && Enabled(s, step)
    ensures DescriptorsAccounted(Apply(s, step))
  {
    hide DescriptorsAccounted;
    match step
    case LockRequest(_) => SameDescriptors(s, Apply(s, step));
    case Prepare(t, alive, connects) =>
      var s1 := s.(shouldClose := false, marks := s.marks + [Began]);
      SameDescriptors(s, s1);
      var s2 := if s1.socket != None && !alive then Close(s1, t) else s1;
      CloseKeepsDescriptors(s1, t);
      if s2.socket == None && connects {
        var s3 := s2.(socket := Some(s2.connected), connected := s2.connected + 1);
        ConnectKeepsDescriptors(s2);
        SameDescriptors(s3, Apply(s, step));
      } else {
        SameDescriptors(s2, Apply(s, step));
      }
    case ServerCloses(t) => CloseKeepsDescriptors(s, t);
    case Finish(t, ret, closeConnection) =>
      var s1 := s.(inFlight := s.inFlight - 1);
      var s2 := if s1.inFlight <= 0 then
                  s1.(failed := s1.failed || s1.inFlight != 0, inFlightThread := None) else s1;
      SameDescriptors(s, s2);
      CloseKeepsDescriptors(s2, t);
      SameDescriptors(if s2.shouldClose || closeConnection || !ret then Close(s2, t) else s2, Apply(s, step));
    case Return(_) => SameDescriptors(s, Apply(s, step));
    case Stop(t) =>
      if s.inFlight > 0 { SameDescriptors(s, Apply(s, step)); } else { CloseKeepsDescriptors(s, t); }
  }

  lemma SameDescriptors(s: Client, s': Client)
    requires DescriptorsAccounted(s)
    requires s'.socket == s.socket && s'.connected == s.connected && s'.closed == s.closed
    ensures DescriptorsAccounted(s')
  {
  }

  lemma StepKeepsFlag(s: Client, step: Step)
    requires FlagIsPendingStop(s) && Enabled(s, step)
    ensures FlagIsPendingStop(Apply(s, step))
  {
  }

  lemma StepKeepsInv(s: Client, step: Step)
    requires Inv(s) && Enabled(s, step)
    ensures Inv(Apply(s, step))
  {
    hide Apply, Enabled, Nested, Counted, DescriptorsAccounted, FlagIsPendingStop;
    StepKeepsNesting(s, step);
    StepKeepsDescriptors(s, step);
    StepKeepsFlag(s, step);
  }

  lemma {:induction false} RunKeepsInv(s: Client, steps: seq<Step>)
    requires Inv(s) && IsRun(s, steps)
    ensures Inv(Exec(s, steps))
    decreases |steps|
  {
    hide Apply, Enabled, Inv;
    if steps != [] {
      StepKeepsInv(s, steps[0]);
      RunKeepsInv(Apply(s, steps[0]), steps[1..]);
    }
  }

  lemma ReachableInv(s: Client)
    requires Reachable(s)
    ensures Inv(s)
  {
    hide Apply, Enabled;
    var steps :| IsRun(START, steps) && Exec(START, steps) == s;
    RunKeepsInv(START, steps);
  }

  // ------------------------------------------------------------------------------------------
  // Main results

  // The counter is the owner's nesting depth, the recorded thread is the owner exactly while that
  // is positive, and no assert of send, stop, shutdown_ssl or close_socket has ever failed.
  lemma CounterIsNestingDepth(s: Client)
    requires Reachable(s)
    ensures s.inFlight == Active(s) >= 0
    ensures s.inFlightThread == (if Active(s) > 0 then s.owner else None)
    ensures !s.failed
  {
    ReachableInv(s);
  }

  function Actor(step: Step): Thread { step.t }

  // A step that closes a descriptor is taken by the thread whose sends are in flight, or when none are.
  lemma NobodyClosesUnderAnotherThread(s: Client, step: Step)
    requires Reachable(s) && Enabled(s, step) && |Apply(s, step).closed| > |s.closed|
    ensures Active(s) > 0 ==> s.owner == Some(Actor(step))
  {
    ReachableInv(s);
  }

  // Every descriptor ever connected is the current one or has been closed, and never twice.
  lemma DescriptorsAreConserved(s: Client, d: Descriptor)
    requires Reachable(s) && d < s.connected
    ensures s.socket == Some(d) <==> d !in s.closed
    ensures multiset(s.closed)[d] == if s.socket == Some(d) then 0 else 1
  {
    ReachableInv(s);
    if d in s.closed {
      var i :| 0 <= i < |s.closed| && s.closed[i] == d;
      OnlyOnce(s.closed, i);
    }
  }

  lemma OnlyOnce(log: seq<Descriptor>, i: nat)
    requires i < |log| && forall k, j | 0 <= k < j < |log| :: log[k] != log[j]
    ensures multiset(log)[log[i]] == 1
  {
    var d := log[i];
    assert log == log[..i] + [d] + log[i + 1..];
    assert d !in log[..i];
    assert d !in log[i + 1..];
    assert multiset(log) == multiset(log[..i]) + multiset{d} + multiset(log[i + 1..]);
  }

  // A request leaves the socket closed exactly when it failed, ends the connection, or found the socket
  // already closed, or when stop was called after the latest send (nested ones included) had begun.
  lemma StopTakesEffect(s: Client, t: Thread, ret: bool, closeConnection: bool)
    requires Reachable(s) && Enabled(s, Finish(t, ret, closeConnection))
    ensures Apply(s, Finish(t, ret, closeConnection)).socket == None
      <==> !ret || closeConnection || s.socket == None || (s.marks != [] && s.marks[|s.marks| - 1] == Stopped)
  {
    ReachableInv(s);
  }

  // Without nested sends, a stop during a request closes the socket by the time the request ends.
  lemma StopDuringPlainRequest(s: Client, steps: seq<Step>, t: Thread, ret: bool, closeConnection: bool)
    requires Reachable(s) && Top(s, t, InRequest) && |s.sends| == 1
    requires IsRun(s, steps) && forall i | 0 <= i < |steps| :: !steps[i].LockRequest? && !steps[i].Finish?
    requires exists i :: 0 <= i < |steps| && steps[i].Stop?
    ensures var s' := Exec(s, steps);
      && Enabled(s', Finish(t, ret, closeConnection))
      && Apply(s', Finish(t, ret, closeConnection)).socket == None
  {
    ReachableInv(s);
    PlainRequest(s, steps, t);
    var i :| 0 <= i < |steps| && steps[i].Stop?;
    RunKeepsInv(s, steps);
  }

  lemma {:induction false} PlainRequest(s: Client, steps: seq<Step>, t: Thread)
    requires Inv(s) && Top(s, t, InRequest) && |s.sends| == 1
    requires IsRun(s, steps) && forall i | 0 <= i < |steps| :: !steps[i].LockRequest? && !steps[i].Finish?
    ensures var s' := Exec(s, steps);
      && Top(s', t, InRequest) && |s'.sends| == 1
      && (s.shouldClose || (exists i :: 0 <= i < |steps| && steps[i].Stop?) ==> s'.shouldClose)
    decreases |steps|
  {
    if steps != [] {
      StepKeepsInv(s, steps[0]);
      var s1 := Apply(s, steps[0]);
      assert Top(s1, t, InRequest) && |s1.sends| == 1;
      forall i | 0 <= i < |steps[1..]| ensures !steps[1..][i].LockRequest? && !steps[1..][i].Finish? {
        assert steps[1..][i] == steps[i + 1];
      }
      PlainRequest(s1, steps[1..], t);
      if i :| 0 <= i < |steps| && steps[i].Stop? {
        if i > 0 { assert steps[1..][i - 1].Stop?; }
      }
    }
  }

  // A send takes the living connection over as it is, closes a dead one and connects anew; it goes on to its
  // request when it has a connection.
  lemma PrepareConnects(s: Client, t: Thread, alive: bool, connects: bool)
    requires Reachable(s) && Enabled(s, Prepare(t, alive, connects))
    ensures var s' := Apply(s, Prepare(t, alive, connects));
      && !s'.shouldClose
      && s'.closed == (if s.socket.Some? && !alive then s.closed + [s.socket.value] else s.closed)
      && s'.connected == (if !(s.socket.Some? && alive) && connects then s.connected + 1 else s.connected)
      && s'.socket == (if s.socket.Some? && alive then s.socket else if connects then Some(s.connected) else None)
      && Top(s', t, if s'.socket.Some? then InRequest else Leaving)
  {
    ReachableInv(s);
  }

  // Nobody stops the client or ends the connection, no request fails, and the socket is found alive.
  predicate KeepsAlive(step: Step) {
    match step
    case LockRequest(_) => true
    case Prepare(_, alive, _) => alive
    case ServerCloses(_) => false
    case Finish(_, ret, closeConnection) => ret && !closeConnection
    case Return(_) => true
    case Stop(_) => false
  }

  // Then any number of requests, nested ones included, by any threads, use the one connection.
  lemma {:induction false} ConnectionIsReused(s: Client, steps: seq<Step>)
    requires Inv(s) && s.socket.Some? && !s.shouldClose
    requires IsRun(s, steps) && forall i | 0 <= i < |steps| :: KeepsAlive(steps[i])
    ensures var s' := Exec(s, steps);
      s'.socket == s.socket && s'.connected == s.connected && s'.closed == s.closed && !s'.shouldClose
    decreases |steps|
  {
    hide Inv, Apply, Enabled, KeepsAlive;
    if steps != [] {
      StepReuses(s, steps[0]);
      StepKeepsInv(s, steps[0]);
      ConnectionIsReused(Apply(s, steps[0]), steps[1..]);
    }
  }

  lemma StepReuses(s: Client, step: Step)
    requires Inv(s) && s.socket.Some? && !s.shouldClose && Enabled(s, step) && KeepsAlive(step)
    ensures var s' := Apply(s, step);
      s'.socket == s.socket && s'.connected == s.connected && s'.closed == s.closed && !s'.shouldClose
  {
  }

  // With a nested send the promise fails: the redirect's send clears the flag that stop has set,
  // reconnects, and the socket is still open when the outer request has returned.
  lemma NestedSendForgetsStop()
    ensures var steps := [LockRequest(0), Prepare(0, false, true), Stop(1),
                          LockRequest(0), Prepare(0, false, true), Finish(0, true, false), Return(0),
                          Finish(0, true, false), Return(0)];
      IsRun(START, steps) && Exec(START, steps).socket == Some(1) && Exec(START, steps).owner == None
  {
    var stopped := [LockRequest(0), Prepare(0, false, true), Stop(1)];
    var nested := [LockRequest(0), Prepare(0, false, true), Finish(0, true, false), Return(0)];
    var last := [Finish(0, true, false), Return(0)];
    FirstSendIsStopped();
    NestedSendReconnects();
    OuterSendReturns();
    RunAppend(START, stopped, nested);
    RunAppend(START, stopped + nested, last);
    assert stopped + nested + last == [LockRequest(0), Prepare(0, false, true), Stop(1),
      LockRequest(0), Prepare(0, false, true), Finish(0, true, false), Return(0), Finish(0, true, false), Return(0)];
  }

  const STOPPED := Client(Some(0), [InRequest], Some(0), 1, Some(0), true, 1, [], [Began, Stopped], false)
  const RECONNECTED :=
    Client(Some(0), [InRequest], Some(1), 1, Some(0), false, 2, [0], [Began, Stopped, Began], false)

  lemma FirstSendIsStopped()
    ensures var steps := [LockRequest(0), Prepare(0, false, true), Stop(1)];
      IsRun(START, steps) && Exec(START, steps) == STOPPED
  {
    var s1 := Apply(START, LockRequest(0));
    var s2 := Apply(s1, Prepare(0, false, true));
    RunCons(s2, Stop(1), []);
    RunCons(s1, Prepare(0, false, true), [Stop(1)]);
    RunCons(START, LockRequest(0), [Prepare(0, false, true), Stop(1)]);
  }

  lemma NestedSendReconnects()
    ensures var steps := [LockRequest(0), Prepare(0, false, true), Finish(0, true, false), Return(0)];
      IsRun(STOPPED, steps) && Exec(STOPPED, steps) == RECONNECTED
  {
    var s1 := Apply(STOPPED, LockRequest(0));
    var s2 := Apply(s1, Prepare(0, false, true));
    var s3 := Apply(s2, Finish(0, true, false));
    assert Apply(s3, Return(0)) == RECONNECTED;
    RunCons(s3, Return(0), []);
    RunCons(s2, Finish(0, true, false), [Return(0)]);
    RunCons(s1, Prepare(0, false, true), [Finish(0, true, false), Return(0)]);
    RunCons(STOPPED, LockRequest(0), [Prepare(0, false, true), Finish(0, true, false), Return(0)]);
  }

  lemma OuterSendReturns()
    ensures var steps := [Finish(0, true, false), Return(0)];
      IsRun(RECONNECTED, steps) && Exec(RECONNECTED, steps).socket == Some(1) && Exec(RECONNECTED, steps).owner == None
  {
    var s1 := Apply(RECONNECTED, Finish(0, true, false));
    RunCons(s1, Return(0), []);
    RunCons(RECONNECTED, Finish(0, true, false), [Return(0)]);
  }

  lemma RunCons(s: Client, step: Step, rest: seq<Step>)
    requires Enabled(s, step) && IsRun(Apply(s, step), rest)
    ensures IsRun(s, [step] + rest) && Exec(s, [step] + rest) == Exec(Apply(s, step), rest)
  {
    assert ([step] + rest)[1..] == rest;
  }

  lemma {:induction false} RunAppend(s: Client, first: seq<Step>, second: seq<Step>)
    requires IsRun(s, first) && IsRun(Exec(s, first), second)
    ensures IsRun(s, first + second) && Exec(s, first + second) == Exec(Exec(s, first), second)
    decreases |first|
  {
    hide Apply, Enabled;
    if first == [] {
      assert first + second == second;
    } else {
      assert (first + second)[1..] == first[1..] + second;
      RunAppend(Apply(s, first[0]), first[1..], second);
    }
  }
}
