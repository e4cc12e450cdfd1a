/** The persistent-notifier protocol: notifiers send progress messages through reference-counted
    handlers, each with a bounded channel, a receiver and a cleanup goroutine, kept by a manager.
    A state machine over the steps that the locks and channels make atomic. */
module NotifierProtocol {
  import opened Wrappers

  /** The channel holds this many notifications before a sender blocks. */
  const BUFFER_SIZE: nat := 20

  datatype Message =
    | Progress(percent: nat, file: string)
    | Failed(file: string)
    | Completed(processed: nat)

  /** Receiving in the select loop; draining after the close signal; gone. */
  datatype Receiver = Receiving | Draining | Exited

  /** Waiting for the last sender; about to deregister; about to signal the receiver; about to
      close the channel; gone. */
  datatype Cleanup = Waiting | Deleting | Signalling | ClosingChannel | Finished

  /** A handler; sent and broadcast are the logs of its channel's two ends. */
  datatype Handler = Handler(
    workspace: string,
    senderCount: int,
    released: nat,
    buffer: seq<Message>,
    channelClosed: bool,
    receiver: Receiver,
    cleanup: Cleanup,
    sent: seq<Message>,
    broadcast: seq<Message>
  )

  datatype Tracked = Tracked(handler: nat, processed: nat, pending: set<string>)

  /** What the holder of a notifier's lock still has to do. */
  datatype Client =
    | Idle
    | Starting(workspace: string, file: string, show: bool)
    | Checked(workspace: string, file: string, show: bool)
    | Sending(workspace: string, handler: nat, messages: seq<Message>, finish: bool)
    | Releasing(handler: nat)

  datatype Notifier = Notifier(active: map<string, Tracked>, client: Client)

  /** panicked records a send on a closed channel, a second close, or a wait group below zero.
      The handler id is made of the workspace and a fixed title, so the workspace stands for it. */
  datatype State = State(
    notifiers: seq<Notifier>,
    managers: map<string, nat>,
    managerLock: Option<nat>,
    handlers: seq<Handler>,
    panicked: bool
  )

  datatype Step =
    // a notifier's calls
    | TrackFile(n: nat, workspace: string, file: string, show: bool)
    | NotifyComplete(n: nat, workspace: string, file: string, success: bool)
    // the rest of a call
    | StartCheck(n: nat)
    | StartGet(n: nat, fails: bool)
    | Send(n: nat)
    | Finish(n: nat)
    | Done(n: nat)
    // a handler's receiver goroutine
    | Receive(h: nat)
    | ReceiveClose(h: nat)
    | Exit(h: nat)
    // a handler's cleanup goroutine
    | Wake(h: nat)
    | Delete(h: nat)
    | CloseChannel(h: nat)

  function Initial(notifiers: nat): State {
    State(seq(notifiers, _ => Notifier(map[], Idle)), map[], None, [], false)
  }

  function NewHandler(workspace: string): Handler {
    Handler(workspace, 1, 0, [], false, Receiving, Waiting, [], [])
  }

  function ProgressOf(t: Tracked, file: string): Message {
    var total := |t.pending| + t.processed;
    Progress(if total > 0 then t.processed * 100 / total else 0, file)
  }

  // ----- the steps

  function WithClient(s: State, n: nat, client: Client): State
    requires n < |s.notifiers|
  {
    s.(notifiers := s.notifiers[n := s.notifiers[n].(client := client)])
  }

  function WithTracked(s: State, n: nat, workspace: string, t: Tracked): State
    requires n < |s.notifiers|
  {
    s.(notifiers := s.notifiers[n := s.notifiers[n].(active := s.notifiers[n].active[workspace := t])])
  }

  function WithHandler(s: State, h: nat, handler: Handler): State
    requires h < |s.handlers|
  {
    s.(handlers := s.handlers[h := handler])
  }

  /** Adds the file to the workspace's pending ones and sends progress if asked to. */
  function BeginTracking(s: State, n: nat, workspace: string, t: Tracked, file: string, show: bool): State
    requires n < |s.notifiers|
  {
    var t' := t.(pending := t.pending + {file});
    WithClient(WithTracked(s, n, workspace, t'), n,
               Sending(workspace, t.handler, if show then [ProgressOf(t', file)] else [], false))
  }

  function BeginComplete(s: State, n: nat, workspace: string, file: string, success: bool): State
    requires n < |s.notifiers| && workspace in s.notifiers[n].active
  {
    var t := s.notifiers[n].active[workspace];
    var t' := t.(processed := t.processed + 1, pending := t.pending - {file});
    var failed := if success then [] else [Failed(file)];
    var completed := if t'.pending == {} then [Completed(t'.processed)] else [];
    WithClient(WithTracked(s, n, workspace, t'), n,
               Sending(workspace, t.handler, failed + [ProgressOf(t', file)] + completed, t'.pending == {}))
  }

  /** Removes the workspace's handler from the manager if it is closed. */
  function DeleteIfClosed(s: State, workspace: string): State {
    if workspace in s.managers && s.managers[workspace] < |s.handlers|
       && s.handlers[s.managers[workspace]].senderCount <= 0
    then s.(managers := s.managers - {workspace})
    else s
  }

  /** Uses the registered handler as one more sender, unless it has closed, or makes a new one. */
  function GetHandler(s: State, n: nat, client: Client): State
    requires n < |s.notifiers| && client.Checked?
  {
    var ws := client.workspace;
    if ws in s.managers && s.managers[ws] < |s.handlers| then
      var i := s.managers[ws];
      var h := s.handlers[i];
      var s' := if h.senderCount <= 0 then s else WithHandler(s, i, h.(senderCount := h.senderCount + 1));
      BeginTracking(s', n, ws, Tracked(i, 0, {}), client.file, client.show)
    else
      var i := |s.handlers|;
      var s' := s.(handlers := s.handlers + [NewHandler(ws)], managers := s.managers[ws := i]);
      BeginTracking(s', n, ws, Tracked(i, 0, {}), client.file, client.show)
  }

  function SendMessage(s: State, n: nat, client: Client): Option<State>
    requires n < |s.notifiers| && client.Sending? && client.messages != [] && client.handler < |s.handlers|
  {
    var h := s.handlers[client.handler];
    if h.channelClosed then Some(s.(panicked := true))
    else if |h.buffer| >= BUFFER_SIZE then None
    else
      var m := client.messages[0];
      Some(WithClient(
             WithHandler(s, client.handler, h.(buffer := h.buffer + [m], sent := h.sent + [m])),
             n, client.(messages := client.messages[1..])))
  }

  function ReleaseSender(s: State, n: nat, i: nat): State
    requires n < |s.notifiers| && i < |s.handlers|
  {
    var h := s.handlers[i];
    var h' := h.(senderCount := h.senderCount - 1);
    var s' := if h'.senderCount != 0 then WithHandler(s, i, h')
              else if h.released > 0 then s.(panicked := true)
              else WithHandler(s, i, h'.(released := 1));
    WithClient(s', n, Idle)
  }

  /** The rest of a notifier's call, made while it holds the notifier's lock. */
  function ClientStep(s: State, n: nat, step: Step): Option<State>
    requires n < |s.notifiers|
  {
    var client := s.notifiers[n].client;
    match step
    case TrackFile(_, ws, file, show) =>
      if client != Idle then None
      else if ws in s.notifiers[n].active then
        Some(BeginTracking(s, n, ws, s.notifiers[n].active[ws], file, show))
      else Some(WithClient(s, n, Starting(ws, file, show)))
    case NotifyComplete(_, ws, file, success) =>
      if client != Idle then None
      else if ws in s.notifiers[n].active then Some(BeginComplete(s, n, ws, file, success))
      else Some(s)
    case StartCheck(_) =>
      if client.Starting? && s.managerLock == None then
        var s' := DeleteIfClosed(s, client.workspace);
        Some(WithClient(s', n, Checked(client.workspace, client.file, client.show)).(managerLock := Some(n)))
      else None
    case StartGet(_, fails) =>
      if !client.Checked? then None
      else if fails && client.workspace !in s.managers then Some(WithClient(s, n, Idle).(managerLock := None))
      else Some(GetHandler(s, n, client).(managerLock := None))
    case Send(_) =>
      if client.Sending? && client.messages != [] && client.handler < |s.handlers| then SendMessage(s, n, client)
      else None
    case Finish(_) =>
      if client.Sending? && client.messages == [] then
        if client.finish then
          var active := s.notifiers[n].active - {client.workspace};
          Some(s.(notifiers := s.notifiers[n := Notifier(active, Releasing(client.handler))]))
        else Some(WithClient(s, n, Idle))
      else None
    case Done(_) =>
      if client.Releasing? && client.handler < |s.handlers| then Some(ReleaseSender(s, n, client.handler))
      else None
    case _ => None
  }

  /** A step of one of a handler's two goroutines. */
  function HandlerStep(s: State, i: nat, step: Step): Option<State>
    requires i < |s.handlers|
  {
    var h := s.handlers[i];
    match step
    case Receive(_) =>
      if !h.receiver.Exited? && h.buffer != [] then
        Some(WithHandler(s, i, h.(buffer := h.buffer[1..], broadcast := h.broadcast + [h.buffer[0]])))
      else None
    case ReceiveClose(_) =>
      if h.receiver.Receiving? && h.cleanup.Signalling? then
        Some(WithHandler(s, i, h.(receiver := Draining, cleanup := ClosingChannel)))
      else None
    case Exit(_) =>
      if h.receiver.Draining? && h.buffer == [] && h.channelClosed then
        Some(WithHandler(s, i, h.(receiver := Exited)))
      else None
    case Wake(_) =>
      if h.cleanup.Waiting? && h.released > 0 then Some(WithHandler(s, i, h.(cleanup := Deleting))) else None
    case Delete(_) =>
      if h.cleanup.Deleting? && s.managerLock == None then
        Some(WithHandler(DeleteIfClosed(s, h.workspace), i, h.(cleanup := Signalling)))
      else None
    case CloseChannel(_) =>
      if h.cleanup.ClosingChannel? then
        if h.channelClosed then Some(s.(panicked := true))
        else Some(WithHandler(s, i, h.(channelClosed := true, cleanup := Finished)))
      else None
    case _ => None
  }

  predicate IsHandlerStep(step: Step) {
    step.Receive? || step.ReceiveClose? || step.Exit? || step.Wake? || step.Delete? || step.CloseChannel?
  }

  /** The state after a step, if the step is possible. */
  function Take(s: State, step: Step): Option<State> {
    if IsHandlerStep(step) then
      if step.h < |s.handlers| then HandlerStep(s, step.h, step) else None
    else
      if step.n < |s.notifiers| then ClientStep(s, step.n, step) else None
  }

  /** The state after any interleaving of steps; steps that are not possible are skipped. */
  function Run(s: State, steps: seq<Step>): State {
    if steps == [] then s else
      var s' := Run(s, steps[..|steps| - 1]);
      match Take(s', steps[|steps| - 1])
      case None => s'
      case Some(next) => next
  }

  // ----- what every reachable state satisfies

  /** The two ends of a handler's channel, and its goroutines, are in step. */
  predicate HandlerInv(h: Handler) {
    && h.sent == h.broadcast + h.buffer
    && |h.buffer| <= BUFFER_SIZE
    && (if h.senderCount == 1 then h.released == 0 else h.senderCount == 0 && h.released == 1)
    && (h.cleanup != Waiting ==> h.released == 1)
    && (h.channelClosed <==> h.cleanup == Finished)
    && (h.receiver == Receiving <==> h.cleanup in {Waiting, Deleting, Signalling})
    && (h.receiver == Exited ==> h.channelClosed && h.buffer == [])
  }

  /** A tracked workspace owns an open handler of its own, which the manager knows. */
  predicate TrackedInv(s: State, ws: string, t: Tracked) {
    && t.handler < |s.handlers|
    && s.handlers[t.handler].workspace == ws
    && s.handlers[t.handler].senderCount == 1
    && ws in s.managers && s.managers[ws] == t.handler
  }

  predicate ClientInv(s: State, active: map<string, Tracked>, client: Client) {
    && (s.managerLock == Some(0) <==> client.Checked?)
    && match client
       case Idle => true
       case Starting(ws, _, _) => ws !in active
       case Checked(ws, _, _) =>
         ws !in active && (ws in s.managers && s.managers[ws] < |s.handlers| ==> s.handlers[s.managers[ws]].senderCount > 0)
       case Sending(ws, h, _, _) => ws in active && active[ws].handler == h
       case Releasing(h) =>
         h < |s.handlers| && s.handlers[h].senderCount == 1 && s.handlers[h].workspace !in active
  }

  /** Somebody will release the handler. */
  predicate Owned(s: State, i: nat)
    requires i < |s.handlers| && |s.notifiers| == 1
  {
    var n := s.notifiers[0];
    var ws := s.handlers[i].workspace;
    || (ws in n.active && n.active[ws].handler == i)
    || n.client == Releasing(i)
  }

  /** The invariant of the protocol with one notifier, which is how the server uses it. */
  ghost predicate Inv(s: State) {
    && |s.notifiers| == 1 && !s.panicked
    && (s.managerLock == None || s.managerLock == Some(0))
    && (forall i :: 0 <= i < |s.handlers| ==> HandlerInv(s.handlers[i]))
    && (forall i :: 0 <= i < |s.handlers| && s.handlers[i].senderCount == 1 ==> Owned(s, i))
    && (forall ws :: ws in s.managers ==>
          s.managers[ws] < |s.handlers| && s.handlers[s.managers[ws]].workspace == ws)
    && (forall ws :: ws in s.notifiers[0].active ==> TrackedInv(s, ws, s.notifiers[0].active[ws]))
    && ClientInv(s, s.notifiers[0].active, s.notifiers[0].client)
  }

  lemma InitialInv()
    ensures Inv(Initial(1))
  {
  }

  /** Changing a handler on its own, without its sender count, keeps the invariant. */
  lemma HandlerChangeInv(s: State, i: nat, h: Handler)
    requires Inv(s) && i < |s.handlers| && HandlerInv(h)
    requires h.workspace == s.handlers[i].workspace && h.senderCount == s.handlers[i].senderCount
    ensures Inv(WithHandler(s, i, h))
  {
    hide HandlerInv;
    var s' := WithHandler(s, i, h);
    forall j | 0 <= j < |s'.handlers| && s'.handlers[j].senderCount == 1 ensures Owned(s', j) {
      assert Owned(s, j);
    }
    forall ws | ws in s'.notifiers[0].active ensures TrackedInv(s', ws, s'.notifiers[0].active[ws]) {
      assert TrackedInv(s, ws, s.notifiers[0].active[ws]);
    }
  }

  /** Deregistering never touches a tracked workspace's handler, whoever asks for it. */
  lemma DeleteIfClosedInv(s: State, workspace: string)
    requires Inv(s)
    ensures Inv(DeleteIfClosed(s, workspace))
    ensures forall ws :: ws in s.notifiers[0].active ==> ws in DeleteIfClosed(s, workspace).managers
  {
    hide HandlerInv;
    var s' := DeleteIfClosed(s, workspace);
    forall ws | ws in s.notifiers[0].active ensures TrackedInv(s', ws, s.notifiers[0].active[ws]) {
      assert TrackedInv(s, ws, s.notifiers[0].active[ws]);
    }
    forall j | 0 <= j < |s'.handlers| && s'.handlers[j].senderCount == 1 ensures Owned(s', j) {
      assert Owned(s, j);
    }
  }

  lemma LocalSteps(h: Handler)
    requires HandlerInv(h)
    ensures h.buffer != [] ==> HandlerInv(h.(buffer := h.buffer[1..], broadcast := h.broadcast + [h.buffer[0]]))
    ensures h.cleanup.Signalling? ==> HandlerInv(h.(receiver := Draining, cleanup := ClosingChannel))
    ensures h.receiver.Draining? && h.buffer == [] && h.channelClosed ==> HandlerInv(h.(receiver := Exited))
    ensures h.cleanup.Waiting? && h.released > 0 ==> HandlerInv(h.(cleanup := Deleting))
    ensures h.cleanup.Deleting? ==> HandlerInv(h.(cleanup := Signalling))
    ensures h.cleanup.ClosingChannel? ==> !h.channelClosed && HandlerInv(h.(channelClosed := true, cleanup := Finished))
  {
    if h.buffer != [] {
      assert h.buffer == [h.buffer[0]] + h.buffer[1..];
    }
  }

  lemma HandlerStepInv(s: State, step: Step)
    requires Inv(s) && IsHandlerStep(step) && step.h < |s.handlers| && HandlerStep(s, step.h, step).Some?
    ensures Inv(HandlerStep(s, step.h, step).value)
  {
    hide Inv, HandlerInv;
    var i := step.h;
    var h := s.handlers[i];
    InvOfHandler(s, i);
    LocalSteps(h);
    match step
    case Receive(_) => HandlerChangeInv(s, i, h.(buffer := h.buffer[1..], broadcast := h.broadcast + [h.buffer[0]]));
    case ReceiveClose(_) => HandlerChangeInv(s, i, h.(receiver := Draining, cleanup := ClosingChannel));
    case Exit(_) => HandlerChangeInv(s, i, h.(receiver := Exited));
    case Wake(_) => HandlerChangeInv(s, i, h.(cleanup := Deleting));
    case Delete(_) =>
      DeleteIfClosedInv(s, h.workspace);
      HandlerChangeInv(DeleteIfClosed(s, h.workspace), i, h.(cleanup := Signalling));
    case CloseChannel(_) => HandlerChangeInv(s, i, h.(channelClosed := true, cleanup := Finished));
  }

  lemma InvOfHandler(s: State, i: nat)
    requires Inv(s) && i < |s.handlers|
    ensures HandlerInv(s.handlers[i]) && |s.notifiers| == 1
  {
  }

  // ----- the client's steps

  lemma BeginTrackingInv(s: State, ws: string, t: Tracked, file: string, show: bool)
    requires Inv(s) && s.notifiers[0].client == Idle && TrackedInv(s, ws, t)
    requires ws in s.notifiers[0].active && s.notifiers[0].active[ws].handler == t.handler
    ensures Inv(BeginTracking(s, 0, ws, t, file, show))
  {
    hide HandlerInv;
    var s' := BeginTracking(s, 0, ws, t, file, show);
    RetrackedInv(s, s', ws);
  }

  /** Counting files and having messages to send leaves ownership alone. */
  lemma RetrackedInv(s: State, s': State, ws: string)
    requires Inv(s) && s.notifiers[0].client == Idle && ws in s.notifiers[0].active
    requires s' == s.(notifiers := s'.notifiers) && |s'.notifiers| == 1
    requires s'.notifiers[0].active.Keys == s.notifiers[0].active.Keys
    requires forall w :: w in s.notifiers[0].active ==> s'.notifiers[0].active[w].handler == s.notifiers[0].active[w].handler
    requires s'.notifiers[0].client.Sending? && s'.notifiers[0].client.workspace == ws
             && s'.notifiers[0].client.handler == s.notifiers[0].active[ws].handler
    ensures Inv(s')
  {
    hide HandlerInv;
    forall w | w in s'.notifiers[0].active ensures TrackedInv(s', w, s'.notifiers[0].active[w]) {
      assert TrackedInv(s, w, s.notifiers[0].active[w]);
    }
    forall j | 0 <= j < |s'.handlers| && s'.handlers[j].senderCount == 1 ensures Owned(s', j) {
      assert Owned(s, j);
    }
  }

  /** Only the lock holder's program counter changes. */
  lemma ClientChangeInv(s: State, client: Client, lock: Option<nat>)
    requires Inv(s) && !s.notifiers[0].client.Releasing? && (lock == None || lock == Some(0))
    requires ClientInv(s.(managerLock := lock), s.notifiers[0].active, client)
    ensures Inv(WithClient(s, 0, client).(managerLock := lock))
  {
    hide HandlerInv;
    var s' := WithClient(s, 0, client).(managerLock := lock);
    forall w | w in s'.notifiers[0].active ensures TrackedInv(s', w, s'.notifiers[0].active[w]) {
      assert TrackedInv(s, w, s.notifiers[0].active[w]);
    }
    forall j | 0 <= j < |s'.handlers| && s'.handlers[j].senderCount == 1 ensures Owned(s', j) {
      assert Owned(s, j);
    }
  }

  /** With one notifier, the check leaves no registered handler behind, so a new one is made. */
  lemma CheckedMeansUnregistered(s: State)
    requires Inv(s) && s.notifiers[0].client.Checked?
    ensures s.notifiers[0].client.workspace !in s.managers
  {
    var ws := s.notifiers[0].client.workspace;
    if ws in s.managers {
      assert false;
    }
  }

  lemma GetHandlerInv(s: State)
    requires Inv(s) && s.notifiers[0].client.Checked?
    ensures Inv(GetHandler(s, 0, s.notifiers[0].client).(managerLock := None))
  {
    hide HandlerInv, Inv;
    CheckedMeansUnregistered(s);
    InvShape(s);
    var client := s.notifiers[0].client;
    var s' := GetHandler(s, 0, client).(managerLock := None);
    StartedInv(s, s', client.workspace);
  }

  /** A workspace that had no handler gets a new one. */
  lemma StartedInv(s: State, s': State, ws: string)
    requires Inv(s) && s.notifiers[0].client.Checked? && ws !in s.managers && ws !in s.notifiers[0].active
    requires s'.handlers == s.handlers + [NewHandler(ws)] && s'.managers == s.managers[ws := |s.handlers|]
    requires |s'.notifiers| == 1 && s'.managerLock == None && !s'.panicked
    requires var client := s'.notifiers[0].client; client.Sending? && client.workspace == ws && client.handler == |s.handlers|
    requires ws in s'.notifiers[0].active && s'.notifiers[0].active[ws].handler == |s.handlers|
    requires s'.notifiers[0].active == s.notifiers[0].active[ws := s'.notifiers[0].active[ws]]
    ensures Inv(s')
  {
    hide HandlerInv;
    NewHandlerInv(ws);
    forall w | w in s'.notifiers[0].active ensures TrackedInv(s', w, s'.notifiers[0].active[w]) {
      assert w != ws ==> TrackedInv(s, w, s.notifiers[0].active[w]);
    }
    forall j | 0 <= j < |s'.handlers| && s'.handlers[j].senderCount == 1 ensures Owned(s', j) {
      if j < |s.handlers| {
        assert Owned(s, j);
      }
    }
  }

  lemma NewHandlerInv(ws: string)
    ensures HandlerInv(NewHandler(ws))
  {
  }

  lemma SendInv(s: State)
    requires Inv(s) && s.notifiers[0].client.Sending? && s.notifiers[0].client.messages != []
    ensures s.notifiers[0].client.handler < |s.handlers|
    ensures !s.handlers[s.notifiers[0].client.handler].channelClosed
    ensures SendMessage(s, 0, s.notifiers[0].client).Some? ==> Inv(SendMessage(s, 0, s.notifiers[0].client).value)
  {
    var client := s.notifiers[0].client;
    assert TrackedInv(s, client.workspace, s.notifiers[0].active[client.workspace]);
    var h := s.handlers[client.handler];
    assert HandlerInv(h);
    if |h.buffer| < BUFFER_SIZE {
      hide Inv, HandlerInv;
      var m := client.messages[0];
      var h' := h.(buffer := h.buffer + [m], sent := h.sent + [m]);
      AppendInv(h, m);
      HandlerChangeInv(s, client.handler, h');
      ClientChangeInv(WithHandler(s, client.handler, h'), client.(messages := client.messages[1..]), s.managerLock);
    }
  }

  lemma AppendInv(h: Handler, m: Message)
    requires HandlerInv(h) && h.senderCount == 1 && |h.buffer| < BUFFER_SIZE
    ensures HandlerInv(h.(buffer := h.buffer + [m], sent := h.sent + [m]))
  {
    assert h.broadcast + h.buffer + [m] == h.broadcast + (h.buffer + [m]);
  }

  lemma FinishInv(s: State)
    requires Inv(s) && s.notifiers[0].client.Sending?
    ensures var client := s.notifiers[0].client;
            Inv(s.(notifiers := s.notifiers[0 := Notifier(s.notifiers[0].active - {client.workspace}, Releasing(client.handler))]))
  {
    hide HandlerInv;
    var client := s.notifiers[0].client;
    var active := s.notifiers[0].active - {client.workspace};
    var s' := s.(notifiers := s.notifiers[0 := Notifier(active, Releasing(client.handler))]);
    assert TrackedInv(s, client.workspace, s.notifiers[0].active[client.workspace]);
    forall w | w in active ensures TrackedInv(s', w, active[w]) {
      assert TrackedInv(s, w, s.notifiers[0].active[w]);
    }
    forall j | 0 <= j < |s'.handlers| && s'.handlers[j].senderCount == 1 ensures Owned(s', j) {
      assert Owned(s, j);
    }
  }

  lemma ReleaseInv(s: State)
    requires Inv(s) && s.notifiers[0].client.Releasing?
    ensures s.notifiers[0].client.handler < |s.handlers|
    ensures Inv(ReleaseSender(s, 0, s.notifiers[0].client.handler))
  {
    var i := s.notifiers[0].client.handler;
    assert HandlerInv(s.handlers[i]);
    var s' := ReleaseSender(s, 0, i);
    assert HandlerInv(s'.handlers[i]);
    ReleasedInv(s, s', i);
  }

  lemma ReleasedInv(s: State, s': State, i: nat)
    requires Inv(s) && s.notifiers[0].client == Releasing(i) && i < |s.handlers|
    requires s' == WithClient(s, 0, Idle).(handlers := s.handlers[i := s.handlers[i].(senderCount := 0, released := 1)])
    requires HandlerInv(s'.handlers[i])
    ensures Inv(s')
  {
    hide HandlerInv;
    forall w | w in s'.notifiers[0].active ensures TrackedInv(s', w, s'.notifiers[0].active[w]) {
      assert TrackedInv(s, w, s.notifiers[0].active[w]);
    }
    forall j | 0 <= j < |s'.handlers| && s'.handlers[j].senderCount == 1 ensures Owned(s', j) {
      assert Owned(s, j);
    }
  }

  lemma ClientStepInv(s: State, step: Step)
    requires Inv(s) && !IsHandlerStep(step) && step.n == 0 && ClientStep(s, 0, step).Some?
    ensures Inv(ClientStep(s, 0, step).value)
  {
    hide HandlerInv, Inv, DeleteIfClosed, SendMessage, GetHandler, ReleaseSender;
    InvShape(s);
    var client := s.notifiers[0].client;
    match step
    case TrackFile(_, ws, file, show) =>
      if ws in s.notifiers[0].active {
        BeginTrackingInv(s, ws, s.notifiers[0].active[ws], file, show);
      } else {
        ClientChangeInv(s, Starting(ws, file, show), s.managerLock);
      }
    case NotifyComplete(_, ws, file, success) =>
      if ws in s.notifiers[0].active {
        RetrackedInv(s, BeginComplete(s, 0, ws, file, success), ws);
      }
    case StartCheck(_) =>
      DeleteIfClosedInv(s, client.workspace);
      CheckInv(s);
    case StartGet(_, fails) =>
      GetHandlerInv(s);
      ClientChangeInv(s, Idle, None);
    case Send(_) => SendInv(s);
    case Finish(_) =>
      FinishInv(s);
      ClientChangeInv(s, Idle, s.managerLock);
    case Done(_) => ReleaseInv(s);
  }

  /** The parts of the invariant that the client's steps start from. */
  lemma InvShape(s: State)
    requires Inv(s)
    ensures |s.notifiers| == 1 && !s.panicked && (s.managerLock == None || s.managerLock == Some(0))
    ensures ClientInv(s, s.notifiers[0].active, s.notifiers[0].client)
    ensures forall ws :: ws in s.notifiers[0].active ==> TrackedInv(s, ws, s.notifiers[0].active[ws])
  {
  }

  lemma CheckInv(s: State)
    requires Inv(s) && s.notifiers[0].client.Starting? && s.managerLock == None
    requires Inv(DeleteIfClosed(s, s.notifiers[0].client.workspace))
    ensures var c := s.notifiers[0].client;
            Inv(WithClient(DeleteIfClosed(s, c.workspace), 0, Checked(c.workspace, c.file, c.show)).(managerLock := Some(0)))
  {
    var c := s.notifiers[0].client;
    var s1 := DeleteIfClosed(s, c.workspace);
    assert ClientInv(s1.(managerLock := Some(0)), s1.notifiers[0].active, Checked(c.workspace, c.file, c.show));
    ClientChangeInv(s1, Checked(c.workspace, c.file, c.show), Some(0));
  }

  /** One step, whoever makes it, keeps the invariant. */
  lemma StepInv(s: State, step: Step)
    requires Inv(s) && Take(s, step).Some?
    ensures Inv(Take(s, step).value)
  {
    hide Inv, HandlerStep, ClientStep;
    InvShape(s);
    if IsHandlerStep(step) {
      HandlerStepInv(s, step);
    } else {
      ClientStepInv(s, step);
    }
  }

  /** Every interleaving of calls, receiver steps and cleanup steps keeps the invariant. */
  lemma {:induction false} RunInv(steps: seq<Step>)
    ensures Inv(Run(Initial(1), steps))
  {
    hide Inv, Take;
    if steps == [] {
      InitialInv();
    } else {
      RunInv(steps[..|steps| - 1]);
      var s := Run(Initial(1), steps[..|steps| - 1]);
      if Take(s, steps[|steps| - 1]).Some? {
        StepInv(s, steps[|steps| - 1]);
      }
    }
  }

  // ----- safety of every run

  /** Nothing is sent on a closed channel, no channel is closed twice and no wait group is
      released twice; what is broadcast is a prefix of what was sent, in order, and all of it
      once the receiver has gone. */
  lemma RunIsSafe(steps: seq<Step>)
    ensures var s := Run(Initial(1), steps);
            && !s.panicked
            && forall i :: 0 <= i < |s.handlers| ==>
                 && s.handlers[i].broadcast <= s.handlers[i].sent
                 && (s.handlers[i].receiver == Exited ==> s.handlers[i].broadcast == s.handlers[i].sent)
  {
    hide Run;
    RunInv(steps);
    var s := Run(Initial(1), steps);
    forall i | 0 <= i < |s.handlers|
      ensures s.handlers[i].broadcast <= s.handlers[i].sent
      ensures s.handlers[i].receiver == Exited ==> s.handlers[i].broadcast == s.handlers[i].sent
    {
      assert HandlerInv(s.handlers[i]);
    }
  }

  /** A tracked workspace always finds its own open handler registered: no late deregistration
      by an older handler of the same workspace has removed it. */
  lemma TrackedStaysRegistered(steps: seq<Step>, ws: string)
    ensures var s := Run(Initial(1), steps);
            |s.notifiers| == 1 && (ws in s.notifiers[0].active ==>
              && ws in s.managers && s.managers[ws] == s.notifiers[0].active[ws].handler < |s.handlers|
              && s.handlers[s.managers[ws]].senderCount == 1 && !s.handlers[s.managers[ws]].channelClosed)
  {
    hide Run;
    RunInv(steps);
    var s := Run(Initial(1), steps);
    if ws in s.notifiers[0].active {
      assert TrackedInv(s, ws, s.notifiers[0].active[ws]);
      assert HandlerInv(s.handlers[s.managers[ws]]);
    }
  }

  // ----- every call completes and every message is delivered

  /** Not a new call. */
  predicate IsInternal(step: Step) {
    !step.TrackFile? && !step.NotifyComplete?
  }

  /** Nothing is left to do: no call is under way, all messages are delivered, and handlers
      without senders are gone. */
  predicate Quiescent(s: State)
    requires |s.notifiers| == 1
  {
    && s.notifiers[0].client == Idle
    && forall i :: 0 <= i < |s.handlers| ==>
         && s.handlers[i].buffer == []
         && (s.handlers[i].released == 1 ==> s.handlers[i].receiver == Exited && s.handlers[i].cleanup == Finished)
  }

  /** Some internal step is possible unless nothing is left to do; so a sender that waits for
      room in a channel never waits for good. */
  lemma NoDeadlock(s: State) returns (step: Step)
    requires Inv(s) && !Quiescent(s)
    ensures IsInternal(step) && Take(s, step).Some?
  {
    InvShape(s);
    if s.notifiers[0].client == Idle {
      var i: nat :| i < |s.handlers| &&
        !(s.handlers[i].buffer == [] &&
          (s.handlers[i].released == 1 ==> s.handlers[i].receiver == Exited && s.handlers[i].cleanup == Finished));
      hide Inv, HandlerStep, HandlerInv, ClientStep;
      InvOfHandler(s, i);
      step := HandlerProgress(s, i);
    } else {
      hide Inv;
      step := ClientProgress(s);
    }
  }

  lemma ClientProgress(s: State) returns (step: Step)
    requires Inv(s) && s.notifiers[0].client != Idle
    ensures IsInternal(step) && Take(s, step).Some?
  {
    hide Inv, HandlerInv;
    InvShape(s);
    var client := s.notifiers[0].client;
    match client
    case Starting(_, _, _) => step := StartCheck(0);
    case Checked(_, _, _) => step := StartGet(0, false);
    case Sending(ws, i, messages, _) =>
      assert TrackedInv(s, ws, s.notifiers[0].active[ws]);
      step := if messages == [] then Finish(0) else if |s.handlers[i].buffer| < BUFFER_SIZE then Send(0) else Receive(i);
      NotExited(s, i);
    case Releasing(_) => step := Done(0);
  }

  /** The receiver of a handler with a sender is there. */
  lemma NotExited(s: State, i: nat)
    requires Inv(s) && i < |s.handlers| && s.handlers[i].senderCount == 1
    ensures s.handlers[i].receiver == Receiving && !s.handlers[i].channelClosed
  {
    assert HandlerInv(s.handlers[i]);
  }

  lemma HandlerProgress(s: State, i: nat) returns (step: Step)
    requires i < |s.handlers| && HandlerInv(s.handlers[i]) && s.managerLock == None
    requires s.handlers[i].buffer != [] ||
             (s.handlers[i].released == 1 && !(s.handlers[i].receiver == Exited && s.handlers[i].cleanup == Finished))
    ensures IsHandlerStep(step) && step.h == i && HandlerStep(s, i, step).Some?
  {
    var h := s.handlers[i];
    if h.buffer != [] {
      step := Receive(i);
    } else {
      match h.cleanup
      case Waiting => step := Wake(i);
      case Deleting => step := Delete(i);
      case Signalling => step := ReceiveClose(i);
      case ClosingChannel => step := CloseChannel(i);
      case Finished => step := Exit(i);
    }
  }

  /** How many internal steps a handler, and a call under way, can still cause. */
  function HandlerWork(h: Handler): nat {
    |h.buffer|
    + (match h.cleanup case Waiting => 4 case Deleting => 3 case Signalling => 2 case ClosingChannel => 1 case Finished => 0)
    + (match h.receiver case Receiving => 2 case Draining => 1 case Exited => 0)
  }

  function ClientWork(c: Client): nat {
    match c
    case Idle => 0
    case Starting(_, _, _) => 14
    case Checked(_, _, _) => 13
    case Sending(_, _, messages, _) => 2 * |messages| + 3
    case Releasing(_) => 1
  }

  function HandlersWork(hs: seq<Handler>): nat {
    if hs == [] then 0 else HandlersWork(hs[..|hs| - 1]) + HandlerWork(hs[|hs| - 1])
  }

  function Work(s: State): nat
    requires |s.notifiers| == 1
  {
    ClientWork(s.notifiers[0].client) + HandlersWork(s.handlers)
  }

  lemma {:induction false} WorkOfChange(hs: seq<Handler>, i: nat, h: Handler)
    requires i < |hs|
    ensures HandlersWork(hs[i := h]) + HandlerWork(hs[i]) == HandlersWork(hs) + HandlerWork(h)
  {
    var last := |hs| - 1;
    if i == last {
      assert hs[i := h][..last] == hs[..last];
    } else {
      assert hs[i := h][..last] == hs[..last][i := h];
      WorkOfChange(hs[..last], i, h);
    }
  }

  /** Every internal step uses up work, so the internal steps between two calls are finitely many. */
  lemma InternalStepsEnd(s: State, step: Step)
    requires Inv(s) && IsInternal(step) && Take(s, step).Some?
    ensures |Take(s, step).value.notifiers| == 1 && Work(Take(s, step).value) < Work(s)
  {
    hide Inv, HandlersWork;
    InvShape(s);
    if IsHandlerStep(step) {
      HandlerStepEnds(s, step);
    } else {
      ClientStepEnds(s, step);
    }
  }

  lemma HandlerStepEnds(s: State, step: Step)
    requires Inv(s) && IsHandlerStep(step) && step.h < |s.handlers| && HandlerStep(s, step.h, step).Some?
    ensures var s' := HandlerStep(s, step.h, step).value;
            s'.notifiers == s.notifiers && HandlersWork(s'.handlers) < HandlersWork(s.handlers)
  {
    hide Inv, HandlersWork;
    InvOfHandler(s, step.h);
    var s' := HandlerStep(s, step.h, step).value;
    WorkOfChange(s.handlers, step.h, s'.handlers[step.h]);
    assert s'.handlers == s.handlers[step.h := s'.handlers[step.h]];
  }

  lemma ClientStepEnds(s: State, step: Step)
    requires Inv(s) && !IsHandlerStep(step) && IsInternal(step) && step.n == 0 && ClientStep(s, 0, step).Some?
    ensures var s' := ClientStep(s, 0, step).value; |s'.notifiers| == 1 && Work(s') < Work(s)
  {
    hide Inv, HandlersWork, HandlerInv;
    InvShape(s);
    var client := s.notifiers[0].client;
    var s' := ClientStep(s, 0, step).value;
    match step
    case StartGet(_, fails) =>
      CheckedMeansUnregistered(s);
      if !(fails && client.workspace !in s.managers) {
        OneMoreHandler(s.handlers, NewHandler(client.workspace));
      }
    case Send(_) =>
      SendInv(s);
      WorkOfChange(s.handlers, client.handler, s'.handlers[client.handler]);
    case Done(_) =>
      ReleaseInv(s);
      ReleaseWork(s, client.handler);
    case _ =>
  }

  lemma OneMoreHandler(hs: seq<Handler>, h: Handler)
    ensures HandlersWork(hs + [h]) == HandlersWork(hs) + HandlerWork(h)
  {
    assert (hs + [h])[..|hs|] == hs;
  }

  lemma ReleaseWork(s: State, i: nat)
    requires Inv(s) && i < |s.handlers|
    ensures HandlersWork(ReleaseSender(s, 0, i).handlers) == HandlersWork(s.handlers)
  {
    hide Inv, HandlersWork;
    InvShape(s);
    var s' := ReleaseSender(s, 0, i);
    WorkOfChange(s.handlers, i, s'.handlers[i]);
    assert s'.handlers == s.handlers[i := s'.handlers[i]];
  }

  /** From every reachable state the goroutines, on their own, finish the call under way, deliver
      every message sent and take down every handler without senders. */
  lemma Settles(s: State) returns (steps: seq<Step>)
    requires Inv(s)
    ensures forall i :: 0 <= i < |steps| ==> IsInternal(steps[i])
    ensures Inv(Run(s, steps)) && Quiescent(Run(s, steps))
    ensures forall i :: 0 <= i < |Run(s, steps).handlers| ==>
              Run(s, steps).handlers[i].broadcast == Run(s, steps).handlers[i].sent
    decreases Work(s)
  {
    hide Inv, Take, Work, Quiescent;
    InvShape(s);
    if Quiescent(s) {
      steps := [];
      QuiescentDelivered(s);
    } else {
      var step := NoDeadlock(s);
      StepInv(s, step);
      InternalStepsEnd(s, step);
      var next := Take(s, step).value;
      var rest := Settles(next);
      steps := [step] + rest;
      RunPrepend(s, step, rest);
    }
  }

  lemma QuiescentDelivered(s: State)
    requires Inv(s) && Quiescent(s)
    ensures forall i :: 0 <= i < |s.handlers| ==> s.handlers[i].broadcast == s.handlers[i].sent
  {
    forall i | 0 <= i < |s.handlers| ensures s.handlers[i].broadcast == s.handlers[i].sent {
      assert HandlerInv(s.handlers[i]);
    }
  }

  lemma {:induction false} RunPrepend(s: State, step: Step, rest: seq<Step>)
    requires Take(s, step).Some?
    ensures Run(s, [step] + rest) == Run(Take(s, step).value, rest)
    decreases |rest|
  {
    hide Take;
    if rest == [] {
      assert [step] + rest == [step] && [step][..0] == [];
    } else {
      var front := rest[..|rest| - 1];
      RunPrepend(s, step, front);
      assert ([step] + rest)[..|[step] + rest| - 1] == [step] + front;
    }
  }

  // ----- why one lock matters

  /** A step that leads to a state from which the rest of a run panics. */
  lemma Before(s: State, step: Step, rest: seq<Step>)
    requires Take(s, step).Some? && Run(Take(s, step).value, rest).panicked
    ensures Run(s, [step] + rest).panicked
  {
    hide Take, Run;
    RunPrepend(s, step, rest);
  }

  /** Between the check for closure and the addition of a sender, a second notifier can lose the
      handler: of several notifiers that share a manager and a workspace, one can be made to send
      on a closed channel. */
  lemma SeveralNotifiersCanPanic(n: nat) returns (steps: seq<Step>)
    requires n >= 2
    ensures Run(Initial(n), steps).panicked
  {
    hide Run;
    var s0 := Initial(n);
    var s1 := Take(s0, TrackFile(0, "w", "f", false)).value;
    var s2 := Take(s1, StartCheck(0)).value;
    var rest := FirstStarts(s2);
    Before(s1, StartCheck(0), rest);
    Before(s0, TrackFile(0, "w", "f", false), [StartCheck(0)] + rest);
    steps := [TrackFile(0, "w", "f", false)] + ([StartCheck(0)] + rest);
  }

  lemma FirstStarts(s: State) returns (steps: seq<Step>)
    requires |s.notifiers| >= 2 && s.managers == map[] && s.handlers == []
    requires s.notifiers[0] == Notifier(map[], Checked("w", "f", false)) && s.notifiers[1] == Notifier(map[], Idle)
    ensures Run(s, steps).panicked
  {
    hide Run;
    var s1 := Take(s, StartGet(0, false)).value;
    assert s1.notifiers[0].client == Sending("w", 0, [], false) && s1.handlers == [NewHandler("w")];
    assert s1.notifiers[0].active["w"].pending == {"f"};
    var s2 := Take(s1, Finish(0)).value;
    var rest := SecondOvertaken(s2);
    Before(s1, Finish(0), rest);
    Before(s, StartGet(0, false), [Finish(0)] + rest);
    steps := [StartGet(0, false)] + ([Finish(0)] + rest);
  }

  /** The second notifier checks the open handler; the first one then completes its last file. */
  lemma SecondOvertaken(s: State) returns (steps: seq<Step>)
    requires |s.notifiers| >= 2 && s.notifiers[0].client == s.notifiers[1].client == Idle && s.managerLock == None
    requires s.handlers == [NewHandler("w")] && s.managers == map["w" := 0]
    requires "w" in s.notifiers[0].active && s.notifiers[0].active["w"] == Tracked(0, 0, {"f"})
    requires "w" !in s.notifiers[1].active
    ensures Run(s, steps).panicked
  {
    hide Run;
    var s1 := Take(s, TrackFile(1, "w", "g", true)).value;
    var s2 := Take(s1, StartCheck(1)).value;
    assert s2.notifiers[1].client == Checked("w", "g", true) && s2.managers == map["w" := 0];
    var s3 := Take(s2, NotifyComplete(0, "w", "f", true)).value;
    assert {"f"} - {"f"} == {};
    var client := s3.notifiers[0].client;
    assert client.Sending? && client.handler == 0 && client.finish && |client.messages| == 2;
    var rest := LastSenderLeaves(s3);
    Before(s2, NotifyComplete(0, "w", "f", true), rest);
    Before(s1, StartCheck(1), [NotifyComplete(0, "w", "f", true)] + rest);
    Before(s, TrackFile(1, "w", "g", true), [StartCheck(1)] + ([NotifyComplete(0, "w", "f", true)] + rest));
    steps := [TrackFile(1, "w", "g", true)] + ([StartCheck(1)] + ([NotifyComplete(0, "w", "f", true)] + rest));
  }

  lemma LastSenderLeaves(s: State) returns (steps: seq<Step>)
    requires |s.notifiers| >= 2 && s.handlers == [NewHandler("w")] && s.managers == map["w" := 0]
    requires s.notifiers[1].client == Checked("w", "g", true)
    requires var c := s.notifiers[0].client; c.Sending? && c.handler == 0 && c.finish && |c.messages| == 2
    ensures Run(s, steps).panicked
  {
    hide Run;
    var s1 := Take(s, Send(0)).value;
    var s2 := Take(s1, Send(0)).value;
    assert s2.notifiers[0].client.messages == [];
    var rest := SecondGetsClosed(s2);
    Before(s1, Send(0), rest);
    Before(s, Send(0), [Send(0)] + rest);
    steps := [Send(0)] + ([Send(0)] + rest);
  }

  lemma SecondGetsClosed(s: State) returns (steps: seq<Step>)
    requires |s.notifiers| >= 2 && |s.handlers| == 1 && s.managers == map["w" := 0]
    requires var h := s.handlers[0]; h.senderCount == 1 && h.released == 0 && !h.channelClosed && h.cleanup == Waiting && h.receiver == Receiving
    requires s.notifiers[1].client == Checked("w", "g", true)
    requires var c := s.notifiers[0].client; c.Sending? && c.handler == 0 && c.finish && c.messages == []
    ensures Run(s, steps).panicked
  {
    hide Run;
    var s1 := Take(s, Finish(0)).value;
    var s2 := Take(s1, Done(0)).value;
    assert s2.handlers[0].senderCount == 0 && s2.handlers[0].released == 1;
    var s3 := Take(s2, StartGet(1, false)).value;
    assert s3.notifiers[1].client.Sending? && s3.notifiers[1].client.messages != [];
    var rest := HandlerGoesDown(s3);
    Before(s2, StartGet(1, false), rest);
    Before(s1, Done(0), [StartGet(1, false)] + rest);
    Before(s, Finish(0), [Done(0)] + ([StartGet(1, false)] + rest));
    steps := [Finish(0)] + ([Done(0)] + ([StartGet(1, false)] + rest));
  }

  /** The handler goes down although the second notifier, which was given it, still wants to send. */
  lemma HandlerGoesDown(s: State) returns (steps: seq<Step>)
    requires |s.notifiers| >= 2 && |s.handlers| == 1 && s.managerLock == None && s.handlers[0].released == 1
    requires s.handlers[0].cleanup == Waiting && s.handlers[0].receiver == Receiving && !s.handlers[0].channelClosed
    requires var c := s.notifiers[1].client; c.Sending? && c.handler == 0 && c.messages != []
    ensures Run(s, steps).panicked
  {
    hide Run;
    var s1 := Take(s, Wake(0)).value;
    var s2 := Take(s1, Delete(0)).value;
    var rest := ChannelCloses(s2);
    Before(s1, Delete(0), rest);
    Before(s, Wake(0), [Delete(0)] + rest);
    steps := [Wake(0)] + ([Delete(0)] + rest);
  }

  lemma ChannelCloses(s: State) returns (steps: seq<Step>)
    requires |s.notifiers| >= 2 && |s.handlers| == 1
    requires s.handlers[0].cleanup == Signalling && s.handlers[0].receiver == Receiving && !s.handlers[0].channelClosed
    requires var c := s.notifiers[1].client; c.Sending? && c.handler == 0 && c.messages != []
    ensures Run(s, steps).panicked
  {
    hide Run;
    var s1 := Take(s, ReceiveClose(0)).value;
    var s2 := Take(s1, CloseChannel(0)).value;
    var s3 := Take(s2, Send(1)).value;
    NoMoreSteps(s3);
    Before(s2, Send(1), []);
    Before(s1, CloseChannel(0), [Send(1)] + []);
    Before(s, ReceiveClose(0), [CloseChannel(0)] + ([Send(1)] + []));
    steps := [ReceiveClose(0)] + ([CloseChannel(0)] + ([Send(1)] + []));
  }

  lemma NoMoreSteps(s: State)
    ensures Run(s, []) == s
  {
  }

  lemma {:induction false} NobodyActs(steps: seq<Step>)
    ensures Run(Initial(0), steps) == Initial(0)
  {
    if steps != [] {
      NobodyActs(steps[..|steps| - 1]);
    }
  }

  /** Every run is safe if and only if there is at most one notifier. */
  lemma SafeIffAtMostOne(n: nat)
    ensures (forall steps :: !Run(Initial(n), steps).panicked) <==> n <= 1
  {
    hide Run, Inv;
    if n >= 2 {
      var steps := SeveralNotifiersCanPanic(n);
    } else {
      forall steps ensures !Run(Initial(n), steps).panicked {
        if n == 0 {
          NobodyActs(steps);
        } else {
          RunIsSafe(steps);
        }
      }
    }
  }
}
