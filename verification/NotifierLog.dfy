/** What the notifier sends, told from the history of calls alone. */
module NotifierLog {
  import opened Wrappers
  import opened NotifierProtocol

  /** A call on a tracked workspace: a file is added, with or without a message, or a file is done. */
  datatype Call = Track(file: string, show: bool) | Complete(file: string, success: bool)

  /** The calls on a workspace from the one that starts its tracking to the one that ends it. */
  datatype Session = Session(workspace: string, calls: seq<Call>)

  datatype Entry = Entry(workspace: string, call: Call)

  // ----- the messages of a session

  /** The files added and not done since. */
  function Pending(calls: seq<Call>): set<string> {
    if calls == [] then {}
    else
      var before := Pending(calls[..|calls| - 1]);
      match calls[|calls| - 1]
      case Track(file, _) => before + {file}
      case Complete(file, _) => before - {file}
  }

  /** How many calls said that a file is done. */
  function Processed(calls: seq<Call>): nat {
    if calls == [] then 0
    else Processed(calls[..|calls| - 1]) + if calls[|calls| - 1].Complete? then 1 else 0
  }

  /** The share of the files that are done, in percent. */
  function Percent(processed: nat, pending: nat): nat {
    if processed + pending == 0 then 0 else 100 * processed / (processed + pending)
  }

  /** Nothing is pending after a file was done: the session is over. */
  predicate IsOver(calls: seq<Call>) {
    calls != [] && calls[|calls| - 1].Complete? && Pending(calls) == {}
  }

  /** The messages of a session: progress for a file that is added, if it is to be shown; for a file
      that is done a failure if there was one, progress, and the completion when nothing is pending. */
  function Messages(calls: seq<Call>): seq<Message> {
    if calls == [] then []
    else
      var progress := Percent(Processed(calls), |Pending(calls)|);
      Messages(calls[..|calls| - 1]) +
      match calls[|calls| - 1]
      case Track(file, show) => if show then [Progress(progress, file)] else []
      case Complete(file, success) =>
        (if success then [] else [Failed(file)])
        + [Progress(progress, file)]
        + if Pending(calls) == {} then [Completed(Processed(calls))] else []
  }

  // ----- the book of sessions

  /** The session of a workspace that is not over. */
  function OpenIndex(book: seq<Session>, ws: string): (i: Option<nat>)
    ensures i.Some? ==> i.value < |book| && book[i.value].workspace == ws && !IsOver(book[i.value].calls)
    ensures i == None ==> forall j :: 0 <= j < |book| && book[j].workspace == ws ==> IsOver(book[j].calls)
  {
    if book == [] then None
    else
      var last := |book| - 1;
      if book[last].workspace == ws && !IsOver(book[last].calls) then Some(last)
      else OpenIndex(book[..last], ws)
  }

  /** A call goes to the open session of its workspace, or starts one. */
  function Post(book: seq<Session>, e: Entry): seq<Session> {
    match OpenIndex(book, e.workspace)
    case Some(i) => book[i := Session(e.workspace, book[i].calls + [e.call])]
    case None => book + [Session(e.workspace, [e.call])]
  }

  /** The call that a step makes good: one on a workspace with an open session, when the notifier is
      free; or the one under way, when the handler that it needs could be started. */
  function Posted(s: State, book: seq<Session>, step: Step): Option<Entry>
    requires |s.notifiers| == 1
  {
    var client := s.notifiers[0].client;
    if step.TrackFile? && step.n == 0 && client == Idle && OpenIndex(book, step.workspace).Some? then
      Some(Entry(step.workspace, Track(step.file, step.show)))
    else if step.NotifyComplete? && step.n == 0 && client == Idle && OpenIndex(book, step.workspace).Some? then
      Some(Entry(step.workspace, Complete(step.file, step.success)))
    else if step.StartGet? && step.n == 0 && client.Checked? && !step.fails then
      Some(Entry(client.workspace, Track(client.file, client.show)))
    else None
  }

  function PostAll(book: seq<Session>, e: Option<Entry>): seq<Session> {
    if e == None then book else Post(book, e.value)
  }

  /** The sessions in a run, in the order in which they started. */
  function Book(steps: seq<Step>): seq<Session> {
    if steps == [] then []
    else
      var front := steps[..|steps| - 1];
      var s := Run(Initial(1), front);
      if |s.notifiers| == 1 then PostAll(Book(front), Posted(s, Book(front), steps[|steps| - 1])) else Book(front)
  }

  // ----- what is sent is what the book says

  /** What a handler has been sent, and what the call under way still sends it. */
  function Outgoing(s: State, i: nat): seq<Message>
    requires |s.notifiers| == 1 && i < |s.handlers|
  {
    var client := s.notifiers[0].client;
    s.handlers[i].sent + if client.Sending? && client.handler == i then client.messages else []
  }

  ghost predicate HandlersBooked(s: State, book: seq<Session>)
    requires |s.notifiers| == 1
  {
    && |book| == |s.handlers|
    && forall i :: 0 <= i < |book| ==>
         s.handlers[i].workspace == book[i].workspace && Outgoing(s, i) == Messages(book[i].calls)
  }

  /** The files of a tracked workspace are those of its session. */
  predicate IsAccount(book: seq<Session>, ws: string, t: Tracked) {
    && t.handler < |book| && book[t.handler].workspace == ws
    && t.processed == Processed(book[t.handler].calls) && t.pending == Pending(book[t.handler].calls)
  }

  /** The workspaces tracked are those with an open session, or with one that the call under way ends. */
  ghost predicate SessionsTracked(s: State, book: seq<Session>)
    requires |s.notifiers| == 1
  {
    var n := s.notifiers[0];
    && (forall ws :: ws in n.active ==> IsAccount(book, ws, n.active[ws]))
    && (forall i :: 0 <= i < |book| && !IsOver(book[i].calls) ==>
          book[i].workspace in n.active && n.active[book[i].workspace].handler == i)
    && (forall ws :: ws in n.active && n.active[ws].handler < |book| && IsOver(book[n.active[ws].handler].calls) ==>
          n.client.Sending? && n.client.handler == n.active[ws].handler)
    && (n.client.Sending? ==> n.client.handler < |book| && (n.client.finish <==> IsOver(book[n.client.handler].calls)))
  }

  ghost predicate Booked(s: State, book: seq<Session>) {
    |s.notifiers| == 1 && HandlersBooked(s, book) && SessionsTracked(s, book)
  }

  /** When the notifier is free, the open session of a workspace is the one it is tracked with. */
  lemma OpenIffTracked(s: State, book: seq<Session>, ws: string)
    requires Booked(s, book) && !s.notifiers[0].client.Sending?
    ensures OpenIndex(book, ws) == if ws in s.notifiers[0].active then Some(s.notifiers[0].active[ws].handler) else None
  {
    hide Messages, IsOver, HandlersBooked;
  }

  /** A step that sends nothing and tracks nothing leaves the book right. */
  lemma QuietStep(s: State, s': State, book: seq<Session>)
    requires Booked(s, book) && |s'.notifiers| == 1 && s'.notifiers[0].active == s.notifiers[0].active
    requires |s'.handlers| == |s.handlers|
    requires forall i :: 0 <= i < |s.handlers| ==> s'.handlers[i].workspace == s.handlers[i].workspace && s'.handlers[i].sent == s.handlers[i].sent
    requires s'.notifiers[0].client == s.notifiers[0].client || (!s'.notifiers[0].client.Sending? && !s.notifiers[0].client.Sending?)
    ensures Booked(s', book)
  {
    hide Messages, IsOver;
  }

  lemma HandlerStepIsQuiet(s: State, book: seq<Session>, step: Step)
    requires Booked(s, book) && IsHandlerStep(step) && step.h < |s.handlers| && HandlerStep(s, step.h, step).Some?
    ensures Booked(HandlerStep(s, step.h, step).value, book)
  {
    hide Booked;
    assert |s.notifiers| == 1 by {
      BookedShape(s, book);
    }
    QuietStep(s, HandlerStep(s, step.h, step).value, book);
  }

  lemma BookedShape(s: State, book: seq<Session>)
    requires Booked(s, book)
    ensures |s.notifiers| == 1 && |book| == |s.handlers|
  {
  }

  // ----- calls

  lemma MessagesNext(calls: seq<Call>, call: Call)
    ensures Processed(calls + [call]) == Processed(calls) + if call.Complete? then 1 else 0
    ensures Pending(calls + [call]) == if call.Complete? then Pending(calls) - {call.file} else Pending(calls) + {call.file}
    ensures IsOver(calls + [call]) <==> call.Complete? && Pending(calls + [call]) == {}
    ensures var progress := Percent(Processed(calls + [call]), |Pending(calls + [call])|);
            Messages(calls + [call]) == Messages(calls) +
            if call.Track? then (if call.show then [Progress(progress, call.file)] else [])
            else (if call.success then [] else [Failed(call.file)]) + [Progress(progress, call.file)]
                 + if Pending(calls + [call]) == {} then [Completed(Processed(calls + [call]))] else []
  {
    assert (calls + [call])[..|calls|] == calls;
  }

  /** A call on a tracked workspace has begun: its account is up to date, and its messages are to be sent. */
  ghost predicate HasBegun(s: State, s': State, book: seq<Session>, ws: string, call: Call)
    requires |s.notifiers| == 1
  {
    && s'.handlers == s.handlers && |s'.notifiers| == 1
    && ws in s.notifiers[0].active && s.notifiers[0].active[ws].handler < |book|
    && var h := s.notifiers[0].active[ws].handler;
    && var calls := book[h].calls + [call];
    && s'.notifiers[0].active == s.notifiers[0].active[ws := Tracked(h, Processed(calls), Pending(calls))]
    && s'.notifiers[0].client.Sending? && s'.notifiers[0].client.handler == h
    && Messages(book[h].calls) + s'.notifiers[0].client.messages == Messages(calls)
    && (s'.notifiers[0].client.finish <==> IsOver(calls))
  }

  lemma PostOpen(s: State, book: seq<Session>, e: Entry)
    requires Booked(s, book) && !s.notifiers[0].client.Sending? && e.workspace in s.notifiers[0].active
    ensures var h := s.notifiers[0].active[e.workspace].handler;
            && h < |book| && book[h].workspace == e.workspace
            && Post(book, e) == book[h := Session(e.workspace, book[h].calls + [e.call])]
  {
    hide Messages, IsOver, Processed, Pending, HandlersBooked;
    OpenIffTracked(s, book, e.workspace);
  }

  lemma CallKeepsHandlers(s: State, s': State, book: seq<Session>, h: nat, session: Session)
    requires |s.notifiers| == 1 && HandlersBooked(s, book) && !s.notifiers[0].client.Sending?
    requires s'.handlers == s.handlers && |s'.notifiers| == 1 && h < |book| && session.workspace == book[h].workspace
    requires s'.notifiers[0].client.Sending? && s'.notifiers[0].client.handler == h
    requires Messages(book[h].calls) + s'.notifiers[0].client.messages == Messages(session.calls)
    ensures HandlersBooked(s', book[h := session])
  {
    hide Messages;
    forall i | 0 <= i < |book|
      ensures s'.handlers[i].workspace == book[h := session][i].workspace && Outgoing(s', i) == Messages(book[h := session][i].calls)
    {
      assert Outgoing(s, i) == s.handlers[i].sent == Messages(book[i].calls);
    }
  }

  lemma CallKeepsAccounts(s: State, s': State, book: seq<Session>, ws: string, session: Session)
    requires |s.notifiers| == 1 && SessionsTracked(s, book) && !s.notifiers[0].client.Sending? && |s'.notifiers| == 1
    requires ws in s.notifiers[0].active && session.workspace == ws
    requires var h := s.notifiers[0].active[ws].handler;
             && s'.notifiers[0].active == s.notifiers[0].active[ws := Tracked(h, Processed(session.calls), Pending(session.calls))]
             && s'.notifiers[0].client.Sending? && s'.notifiers[0].client.handler == h
             && (s'.notifiers[0].client.finish <==> IsOver(session.calls))
    ensures s.notifiers[0].active[ws].handler < |book| && SessionsTracked(s', book[s.notifiers[0].active[ws].handler := session])
  {
    hide IsOver, Processed, Pending;
    var h := s.notifiers[0].active[ws].handler;
    assert IsAccount(book, ws, s.notifiers[0].active[ws]);
    var book' := book[h := session];
    forall w | w in s'.notifiers[0].active ensures IsAccount(book', w, s'.notifiers[0].active[w]) {
      if w != ws {
        assert IsAccount(book, w, s.notifiers[0].active[w]);
      }
    }
  }

  lemma CallIsBooked(s: State, s': State, book: seq<Session>, ws: string, call: Call)
    requires Booked(s, book) && s.notifiers[0].client == Idle && HasBegun(s, s', book, ws, call)
    ensures Booked(s', Post(book, Entry(ws, call)))
  {
    hide HandlersBooked, SessionsTracked, Post, Messages, Processed, Pending, IsOver;
    PostOpen(s, book, Entry(ws, call));
    var h := s.notifiers[0].active[ws].handler;
    var session := Session(ws, book[h].calls + [call]);
    CallKeepsHandlers(s, s', book, h, session);
    CallKeepsAccounts(s, s', book, ws, session);
  }

  lemma AccountOf(s: State, book: seq<Session>, ws: string)
    requires Booked(s, book) && ws in s.notifiers[0].active
    ensures IsAccount(book, ws, s.notifiers[0].active[ws])
  {
    hide Messages, IsOver;
  }

  lemma TrackIsBooked(s: State, book: seq<Session>, ws: string, file: string, show: bool)
    requires Booked(s, book) && s.notifiers[0].client == Idle && ws in s.notifiers[0].active
    ensures Booked(BeginTracking(s, 0, ws, s.notifiers[0].active[ws], file, show), Post(book, Entry(ws, Track(file, show))))
  {
    hide HandlersBooked, SessionsTracked, Post, Messages, Processed, Pending, IsOver;
    var t := s.notifiers[0].active[ws];
    AccountOf(s, book, ws);
    MessagesNext(book[t.handler].calls, Track(file, show));
    CallIsBooked(s, BeginTracking(s, 0, ws, t, file, show), book, ws, Track(file, show));
  }

  lemma CompleteIsBooked(s: State, book: seq<Session>, ws: string, file: string, success: bool)
    requires Booked(s, book) && s.notifiers[0].client == Idle && ws in s.notifiers[0].active
    ensures Booked(BeginComplete(s, 0, ws, file, success), Post(book, Entry(ws, Complete(file, success))))
  {
    hide HandlersBooked, SessionsTracked, Post, Messages, Processed, Pending, IsOver;
    var t := s.notifiers[0].active[ws];
    AccountOf(s, book, ws);
    MessagesNext(book[t.handler].calls, Complete(file, success));
    CallIsBooked(s, BeginComplete(s, 0, ws, file, success), book, ws, Complete(file, success));
  }

  lemma StartKeepsHandlers(s: State, s': State, book: seq<Session>, session: Session)
    requires |s.notifiers| == 1 && HandlersBooked(s, book) && !s.notifiers[0].client.Sending? && |s'.notifiers| == 1
    requires s'.handlers == s.handlers + [NewHandler(session.workspace)]
    requires s'.notifiers[0].client.Sending? && s'.notifiers[0].client.handler == |s.handlers|
    requires s'.notifiers[0].client.messages == Messages(session.calls)
    ensures HandlersBooked(s', book + [session])
  {
    hide Messages;
    forall i | 0 <= i < |book|
      ensures s'.handlers[i].workspace == book[i].workspace && Outgoing(s', i) == Messages(book[i].calls)
    {
      assert Outgoing(s, i) == s.handlers[i].sent == Messages(book[i].calls);
    }
    assert Outgoing(s', |book|) == [] + Messages(session.calls);
  }

  lemma StartKeepsAccounts(s: State, s': State, book: seq<Session>, ws: string, session: Session)
    requires |s.notifiers| == 1 && SessionsTracked(s, book) && !s.notifiers[0].client.Sending? && |s'.notifiers| == 1
    requires ws !in s.notifiers[0].active && session.workspace == ws && !IsOver(session.calls)
    requires s'.notifiers[0].active == s.notifiers[0].active[ws := Tracked(|book|, Processed(session.calls), Pending(session.calls))]
    requires s'.notifiers[0].client.Sending? && s'.notifiers[0].client.handler == |book| && !s'.notifiers[0].client.finish
    ensures SessionsTracked(s', book + [session])
  {
    hide IsOver, Processed, Pending;
    var book' := book + [session];
    forall w | w in s'.notifiers[0].active ensures IsAccount(book', w, s'.notifiers[0].active[w]) {
      if w != ws {
        assert IsAccount(book, w, s.notifiers[0].active[w]);
      }
    }
    forall w | w in s'.notifiers[0].active ensures !IsOver(book'[s'.notifiers[0].active[w].handler].calls) {
      if w != ws {
        assert IsAccount(book, w, s.notifiers[0].active[w]);
      }
    }
  }

  /** A new handler with the first call of its session. */
  lemma StartIsBooked(s: State, s': State, book: seq<Session>, ws: string, call: Call)
    requires Booked(s, book) && !s.notifiers[0].client.Sending? && ws !in s.notifiers[0].active
    requires var i := |s.handlers|;
             && s'.handlers == s.handlers + [NewHandler(ws)] && |s'.notifiers| == 1
             && s'.notifiers[0].active == s.notifiers[0].active[ws := Tracked(i, Processed([call]), Pending([call]))]
             && s'.notifiers[0].client.Sending? && s'.notifiers[0].client.handler == i
             && s'.notifiers[0].client.messages == Messages([call])
             && !s'.notifiers[0].client.finish && !IsOver([call])
    ensures Booked(s', Post(book, Entry(ws, call)))
  {
    hide HandlersBooked, SessionsTracked, OpenIndex, Messages, Processed, Pending, IsOver;
    BookedShape(s, book);
    OpenIffTracked(s, book, ws);
    StartKeepsHandlers(s, s', book, Session(ws, [call]));
    StartKeepsAccounts(s, s', book, ws, Session(ws, [call]));
  }

  lemma GetIsBooked(s: State, book: seq<Session>)
    requires Inv(s) && Booked(s, book) && s.notifiers[0].client.Checked?
    ensures var c := s.notifiers[0].client;
            Booked(GetHandler(s, 0, c).(managerLock := None), Post(book, Entry(c.workspace, Track(c.file, c.show))))
  {
    hide Inv;
    CheckedMeansUnregistered(s);
    InvShape(s);
    var c := s.notifiers[0].client;
    var call := Track(c.file, c.show);
    MessagesNext([], call);
    assert [] + [call] == [call];
    assert Processed([]) == 0 && Pending([]) == {} && Messages([]) == [];
    hide Booked, Post, Messages, Processed, Pending, IsOver;
    StartIsBooked(s, GetHandler(s, 0, c).(managerLock := None), book, c.workspace, call);
  }

  // ----- the rest of a call

  lemma SendIsBooked(s: State, book: seq<Session>)
    requires Inv(s) && Booked(s, book) && s.notifiers[0].client.Sending? && s.notifiers[0].client.messages != []
    ensures s.notifiers[0].client.handler < |s.handlers|
    ensures SendMessage(s, 0, s.notifiers[0].client).Some? ==> Booked(SendMessage(s, 0, s.notifiers[0].client).value, book)
  {
    hide Inv, Messages, IsOver;
    SendInv(s);
    var client := s.notifiers[0].client;
    if SendMessage(s, 0, client).Some? {
      var s' := SendMessage(s, 0, client).value;
      assert client.messages == [client.messages[0]] + client.messages[1..];
      forall i | 0 <= i < |s.handlers| ensures Outgoing(s', i) == Outgoing(s, i) {
        if i == client.handler {
          assert s.handlers[i].sent + client.messages == s.handlers[i].sent + [client.messages[0]] + client.messages[1..];
        }
      }
      assert HandlersBooked(s', book);
      assert SessionsTracked(s', book);
    }
  }

  lemma FinishIsBooked(s: State, book: seq<Session>)
    requires Inv(s) && Booked(s, book) && s.notifiers[0].client.Sending? && s.notifiers[0].client.messages == []
    ensures ClientStep(s, 0, NotifierProtocol.Finish(0)).Some?
    ensures Booked(ClientStep(s, 0, NotifierProtocol.Finish(0)).value, book)
  {
    hide Inv, Messages, IsOver;
    InvShape(s);
    var s' := ClientStep(s, 0, NotifierProtocol.Finish(0)).value;
    assert HandlersBooked(s', book);
    assert SessionsTracked(s', book);
  }

  lemma DoneIsBooked(s: State, book: seq<Session>)
    requires Inv(s) && Booked(s, book) && s.notifiers[0].client.Releasing?
    ensures s.notifiers[0].client.handler < |s.handlers|
    ensures Booked(ReleaseSender(s, 0, s.notifiers[0].client.handler), book)
  {
    hide Inv;
    ReleaseInv(s);
    var s' := ReleaseSender(s, 0, s.notifiers[0].client.handler);
    hide Booked;
    QuietStep(s, s', book);
  }

  lemma ClientStepIsBooked(s: State, book: seq<Session>, step: Step)
    requires Inv(s) && Booked(s, book) && !IsHandlerStep(step) && step.n == 0 && ClientStep(s, 0, step).Some?
    ensures Booked(ClientStep(s, 0, step).value, PostAll(book, Posted(s, book, step)))
  {
    hide HandlersBooked, SessionsTracked, Post, OpenIndex, Inv, BeginTracking, BeginComplete, GetHandler, SendMessage, ReleaseSender, DeleteIfClosed;
    var s' := ClientStep(s, 0, step).value;
    match step
    case TrackFile(_, ws, file, show) =>
      OpenIffTracked(s, book, ws);
      if ws in s.notifiers[0].active {
        TrackIsBooked(s, book, ws, file, show);
      } else {
        QuietStep(s, s', book);
      }
    case NotifyComplete(_, ws, file, success) =>
      OpenIffTracked(s, book, ws);
      if ws in s.notifiers[0].active {
        CompleteIsBooked(s, book, ws, file, success);
      }
    case StartCheck(_) => CheckIsBooked(s, book, s');
    case StartGet(_, fails) =>
      CheckedMeansUnregistered(s);
      if fails {
        QuietStep(s, s', book);
      } else {
        GetIsBooked(s, book);
      }
    case Send(_) => SendIsBooked(s, book);
    case Finish(_) => FinishIsBooked(s, book);
    case Done(_) => DoneIsBooked(s, book);
  }

  lemma CheckIsBooked(s: State, book: seq<Session>, s': State)
    requires Booked(s, book) && ClientStep(s, 0, StartCheck(0)) == Some(s')
    ensures Booked(s', book)
  {
    hide HandlersBooked, SessionsTracked;
    QuietStep(s, s', book);
  }

  lemma StepIsBooked(s: State, book: seq<Session>, step: Step)
    requires Inv(s) && Booked(s, book)
    ensures |s.notifiers| == 1
    ensures Take(s, step).Some? ==> Booked(Take(s, step).value, PostAll(book, Posted(s, book, step)))
    ensures Take(s, step).None? ==> Posted(s, book, step) == None
  {
    hide Inv, Booked, OpenIndex, HandlerStep;
    BookedShape(s, book);
    if Take(s, step).Some? {
      if IsHandlerStep(step) {
        HandlerStepIsQuiet(s, book, step);
      } else {
        ClientStepIsBooked(s, book, step);
      }
    }
  }

  lemma {:induction false} RunIsBooked(steps: seq<Step>)
    ensures Booked(Run(Initial(1), steps), Book(steps))
  {
    hide Inv, Take, Booked, Posted, PostAll;
    if steps == [] {
      StartsBooked();
    } else {
      var front := steps[..|steps| - 1];
      RunIsBooked(front);
      RunInv(front);
      StepIsBooked(Run(Initial(1), front), Book(front), steps[|steps| - 1]);
      NothingPosted(Book(front));
    }
  }

  lemma NothingPosted(book: seq<Session>)
    ensures PostAll(book, None) == book
  {
  }

  lemma StartsBooked()
    ensures Booked(Initial(1), [])
  {
  }

  /** In every run, when no call is under way: there is a handler for every session of the history,
      and it has been sent exactly the messages that the calls of the session call for, in order. */
  lemma SentFollowsHistory(steps: seq<Step>)
    ensures var s, book := Run(Initial(1), steps), Book(steps);
            |s.notifiers| == 1 && (s.notifiers[0].client == Idle ==>
              && |s.handlers| == |book|
              && forall i :: 0 <= i < |book| ==>
                   s.handlers[i].workspace == book[i].workspace && s.handlers[i].sent == Messages(book[i].calls))
  {
    hide Run, Book, Messages, SessionsTracked;
    RunIsBooked(steps);
  }

  /** And at rest all of it has been broadcast: from every state of a run the goroutines, on their
      own, deliver exactly what the history calls for. */
  lemma DeliveredFollowsHistory(steps: seq<Step>)
    requires |Run(Initial(1), steps).notifiers| == 1 && Quiescent(Run(Initial(1), steps))
    ensures var s, book := Run(Initial(1), steps), Book(steps);
            |s.handlers| == |book| && forall i :: 0 <= i < |book| ==> s.handlers[i].broadcast == Messages(book[i].calls)
  {
    hide Run, Book, Messages, Inv;
    SentFollowsHistory(steps);
    RunInv(steps);
    QuiescentDelivered(Run(Initial(1), steps));
  }
}
