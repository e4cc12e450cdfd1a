/** The idle timer of the daemon under interleaved session starts and ends. */
module IdleTimer {
  import opened Wrappers

  /** How far a call has come. The session change takes the session store's lock, the rest the
      timer's lock, and the count the session store's lock again. */
  datatype Phase =
    | Opening(id: string)     // InitSession, before its Set
    | Closing(id: string)     // EndSession, before its Delete
    | Describing(id: string)  // Initialize, between reading the session and its Set
    | Changed                 // the session change is made or given up, the refresh is next
    | Locked                  // in the refresh, with the timer's lock
    | Counted(count: nat)     // the sessions are counted
    | Stopped(count: nat)     // the timer is stopped

  datatype State = State(sessions: set<string>, armed: bool, holder: Option<nat>, calls: map<nat, Phase>)

  datatype Event =
    | Open(call: nat, id: string)
    | Close(call: nat, id: string)
    | Describe(call: nat, id: string)
    | Change(call: nat)
    | GiveUp(call: nat)
    | Lock(call: nat)
    | Count(call: nat)
    | Stop(call: nat)
    | Finish(call: nat)

  /** The daemon as it is made: the timer runs before the first session. */
  function Initial(): State {
    State({}, true, None, map[])
  }

  function To(s: State, call: nat, phase: Phase): State {
    s.(calls := s.calls[call := phase])
  }

  predicate Holds(phase: Phase) {
    phase.Locked? || phase.Counted? || phase.Stopped?
  }

  /** One step, or none if the call is not at that point. */
  function Take(s: State, e: Event): Option<State> {
    if e.Open? || e.Close? || e.Describe? then
      if e.call in s.calls then None
      else if e.Open? then Some(To(s, e.call, Opening(e.id)))
      else if e.Close? then Some(To(s, e.call, Closing(e.id)))
      else if e.id in s.sessions then Some(To(s, e.call, Describing(e.id)))
      else Some(s)
    else if e.call !in s.calls then None
    else
      var phase := s.calls[e.call];
      match e
      case Change(c) =>
        if phase.Opening? then Some(To(s, c, Changed).(sessions := s.sessions + {phase.id}))
        else if phase.Closing? then Some(To(s, c, Changed).(sessions := s.sessions - {phase.id}))
        else if phase.Describing? then Some(s.(sessions := s.sessions + {phase.id}, calls := s.calls - {c}))
        else None
      case GiveUp(c) =>
        if phase.Opening? then Some(To(s, c, Changed))
        else if phase.Describing? then Some(s.(calls := s.calls - {c}))
        else None
      case Lock(c) =>
        if phase.Changed? && s.holder == None then Some(To(s, c, Locked).(holder := Some(c))) else None
      case Count(c) =>
        if phase.Locked? then Some(To(s, c, Counted(|s.sessions|))) else None
      case Stop(c) =>
        if phase.Counted? then Some(To(s, c, Stopped(phase.count)).(armed := false)) else None
      case Finish(c) =>
        if phase.Stopped? then
          Some(State(s.sessions, phase.count == 0 || s.armed, None, s.calls - {c}))
        else None
  }

  function Run(s: State, events: seq<Event>): Option<State>
    decreases |events|
  {
    if events == [] then Some(s)
    else
      match Take(s, events[0])
      case None => None
      case Some(next) => Run(next, events[1..])
  }

  // ----- safety

  /** Some call has still to count the sessions. */
  predicate ToBeCounted(s: State) {
    exists c :: c in s.calls && (s.calls[c].Changed? || s.calls[c].Locked?)
  }

  /** No call is past its session change. */
  predicate AtRest(s: State) {
    forall c :: c in s.calls ==> s.calls[c].Opening? || s.calls[c].Closing? || s.calls[c].Describing?
  }

  /** The lock has one holder, and the timer stays stopped until it finishes. */
  ghost predicate OneHolder(s: State) {
    && (forall c :: c in s.calls ==> (Holds(s.calls[c]) <==> s.holder == Some(c)))
    && (s.holder.Some? ==> s.holder.value in s.calls)
    && (forall c :: c in s.calls && s.calls[c].Stopped? ==> !s.armed)
  }

  /** Unless a call has still to count, the last count is right about there being sessions, and
      the timer agrees with it once its call has finished. */
  ghost predicate CountIsRight(s: State)
    requires OneHolder(s)
  {
    !ToBeCounted(s) ==>
      if s.holder.Some? then
        var phase := s.calls[s.holder.value];
        (phase.Counted? || phase.Stopped?) && (phase.count == 0 <==> s.sessions == {})
      else s.armed <==> s.sessions == {}
  }

  ghost predicate Inv(s: State) {
    OneHolder(s) && CountIsRight(s)
  }

  /** Initialize puts back a session that has ended, when nothing is left that would notice. */
  predicate Unnoticed(s: State, e: Event) {
    && e.Change? && e.call in s.calls && s.calls[e.call].Describing?
    && s.sessions == {} && !ToBeCounted(s)
  }

  lemma TakeKeepsOneHolder(s: State, e: Event)
    requires OneHolder(s) && Take(s, e).Some?
    ensures OneHolder(Take(s, e).value)
  {
  }

  /** A call that has still to count has so until its Count step. */
  lemma CountIsTheirs(s: State, e: Event)
    requires OneHolder(s) && Take(s, e).Some? && ToBeCounted(s)
    ensures ToBeCounted(Take(s, e).value) || (e.Count? && Take(s, e).value.holder == Some(e.call))
  {
    var c :| c in s.calls && (s.calls[c].Changed? || s.calls[c].Locked?);
    if c != e.call {
      assert c in Take(s, e).value.calls && Take(s, e).value.calls[c] == s.calls[c];
    } else if !e.Count? {
      assert e.Lock?;
      assert Take(s, e).value.calls[c].Locked?;
    }
  }

  lemma TakeKeepsCount(s: State, e: Event)
    requires Inv(s) && Take(s, e).Some? && OneHolder(Take(s, e).value) && !Unnoticed(s, e)
    ensures CountIsRight(Take(s, e).value)
  {
    var t := Take(s, e).value;
    if ToBeCounted(s) {
      CountIsTheirs(s, e);
    } else if !ToBeCounted(t) {
      assert e.Change? ==> s.calls[e.call].Describing? by {
        assert e.Change? && e.call in t.calls ==> !t.calls[e.call].Changed?;
      }
    }
  }

  lemma TakeKeepsInv(s: State, e: Event)
    requires Inv(s) && Take(s, e).Some? && !Unnoticed(s, e)
    ensures Inv(Take(s, e).value)
  {
    hide Take, OneHolder, CountIsRight, Unnoticed;
    TakeKeepsOneHolder(s, e);
    TakeKeepsCount(s, e);
  }

  /** In no state along the run does Initialize put back a session unnoticed. */
  predicate Noticed(s: State, events: seq<Event>)
    decreases |events|
  {
    events == [] ||
    (!Unnoticed(s, events[0]) && (Take(s, events[0]).Some? ==> Noticed(Take(s, events[0]).value, events[1..])))
  }

  lemma {:induction false} RunKeepsInv(s: State, events: seq<Event>)
    requires Inv(s) && Run(s, events).Some? && Noticed(s, events)
    ensures Inv(Run(s, events).value)
    decreases |events|
  {
    if events != [] {
      hide Inv, Take, Unnoticed;
      TakeKeepsInv(s, events[0]);
      RunKeepsInv(Take(s, events[0]).value, events[1..]);
    }
  }

  /** At rest, the timer is armed exactly when there are no sessions. */
  lemma ArmedIffNoSessions(events: seq<Event>)
    requires Run(Initial(), events).Some? && Noticed(Initial(), events)
    ensures var s := Run(Initial(), events).value;
            AtRest(s) ==> (s.armed <==> s.sessions == {})
  {
    RunKeepsInv(Initial(), events);
  }

  /** Starts and ends of sessions alone never go unnoticed. */
  lemma {:induction false} SessionsAloneAreNoticed(s: State, events: seq<Event>)
    requires forall e :: e in events ==> !e.Describe?
    requires forall c :: c in s.calls ==> !s.calls[c].Describing?
    ensures Noticed(s, events)
    decreases |events|
  {
    if events != [] && Take(s, events[0]).Some? {
      SessionsAloneAreNoticed(Take(s, events[0]).value, events[1..]);
    }
  }

  // ----- the exception

  /** The steps that finish the call with the lock, once it has counted. */
  function FinishHolder(s: State): seq<Event> {
    if s.holder == None || s.holder.value !in s.calls then []
    else if s.calls[s.holder.value].Counted? then [Stop(s.holder.value), Finish(s.holder.value)]
    else [Finish(s.holder.value)]
  }

  /** A session put back unnoticed leaves, once the call with the lock has finished, the timer
      armed at rest beside a session: exactly these steps break the agreement. */
  lemma UnnoticedLeavesArmed(s: State, e: Event)
    requires Inv(s) && Unnoticed(s, e)
    ensures var finish := FinishHolder(s);
            var t := Run(s, [e] + finish);
            t.Some? && AtRest(t.value) && t.value.armed && t.value.sessions == {s.calls[e.call].id}
  {
    var finish := FinishHolder(s);
    var u := Take(s, e).value;
    assert ([e] + finish)[1..] == finish;
    assert forall c :: c in s.calls ==> !(s.calls[c].Changed? || s.calls[c].Locked?);
    if s.holder.Some? {
      var c := s.holder.value;
      assert u.calls[c] == s.calls[c];
      if s.calls[c].Counted? {
        var v := Take(u, Stop(c)).value;
        assert finish[1..] == [Finish(c)] && finish[1..][1..] == [];
        assert Run(u, finish) == Run(v, [Finish(c)]) == Take(v, Finish(c));
      } else {
        assert finish[1..] == [];
        assert Run(u, finish) == Take(u, Finish(c));
      }
    }
  }

  /** The steps of a refresh. */
  function Refresh(c: nat): seq<Event> {
    [Lock(c), Count(c), Stop(c), Finish(c)]
  }

  /** A refresh that nothing interrupts arms the timer exactly when there are no sessions. */
  lemma RefreshRun(s: State, c: nat)
    requires c in s.calls && s.calls[c].Changed? && s.holder == None
    ensures Run(s, Refresh(c)) == Some(State(s.sessions, s.sessions == {}, None, s.calls - {c}))
  {
    var n := |s.sessions|;
    var s1 := To(s, c, Locked).(holder := Some(c));
    var s2 := To(s1, c, Counted(n));
    var s3 := To(s2, c, Stopped(n)).(armed := false);
    var s4 := State(s.sessions, n == 0, None, s.calls - {c});
    assert s3.calls - {c} == s.calls - {c};
    RunThrough([s, s1, s2, s3, s4], Refresh(c));
  }

  /** Initialize reads a session, the session ends, and Initialize then puts it back. */
  lemma EndedSessionComesBack()
    ensures exists events :: Run(Initial(), events) == Some(State({"a"}, true, None, map[]))
  {
    hide Take, Run;
    var begin, end := [Open(0, "a"), Change(0)] + Refresh(0), [Describe(1, "a"), Close(2, "a"), Change(2)] + Refresh(2) + [Change(1)];
    SessionOpens();
    SessionClosesAndComesBack();
    RunConcat(Initial(), begin, end);
  }

  lemma SessionOpens()
    ensures Run(Initial(), [Open(0, "a"), Change(0)] + Refresh(0)) == Some(State({"a"}, false, None, map[]))
  {
    var s1 := To(Initial(), 0, Opening("a"));
    var s2 := State({"a"}, true, None, map[0 := Changed]);
    assert s1.calls[0 := Changed] == s2.calls && {} + {"a"} == {"a"};
    RunThrough([Initial(), s1, s2], [Open(0, "a"), Change(0)]);
    hide Take, Run;
    RefreshRun(s2, 0);
    RunConcat(Initial(), [Open(0, "a"), Change(0)], Refresh(0));
    assert s2.calls - {0} == map[];
  }

  lemma SessionClosesAndComesBack()
    ensures Run(State({"a"}, false, None, map[]), [Describe(1, "a"), Close(2, "a"), Change(2)] + Refresh(2) + [Change(1)])
            == Some(State({"a"}, true, None, map[]))
  {
    var s0 := State({"a"}, false, None, map[]);
    var s3 := State({}, false, None, map[1 := Describing("a"), 2 := Changed]);
    var s4 := State({}, true, None, map[1 := Describing("a")]);
    EndsWhileDescribed();
    assert Take(s4, Change(1)) == Some(State({"a"}, true, None, map[])) by {
      assert s4.calls - {1} == map[] && {} + {"a"} == {"a"};
    }
    RunThrough([s4, State({"a"}, true, None, map[])], [Change(1)]);
    hide Take, Run;
    RefreshRun(s3, 2);
    assert s3.calls - {2} == s4.calls;
    RunConcat(s0, [Describe(1, "a"), Close(2, "a"), Change(2)], Refresh(2));
    RunConcat(s0, [Describe(1, "a"), Close(2, "a"), Change(2)] + Refresh(2), [Change(1)]);
  }

  lemma EndsWhileDescribed()
    ensures Run(State({"a"}, false, None, map[]), [Describe(1, "a"), Close(2, "a"), Change(2)])
            == Some(State({}, false, None, map[1 := Describing("a"), 2 := Changed]))
  {
    var s0 := State({"a"}, false, None, map[]);
    var s1 := State({"a"}, false, None, map[1 := Describing("a")]);
    var s2 := State({"a"}, false, None, map[1 := Describing("a"), 2 := Closing("a")]);
    var s3 := State({}, false, None, map[1 := Describing("a"), 2 := Changed]);
    assert s0.calls[1 := Describing("a")] == s1.calls && s1.calls[2 := Closing("a")] == s2.calls;
    assert s2.calls[2 := Changed] == s3.calls && {"a"} - {"a"} == {};
    RunThrough([s0, s1, s2, s3], [Describe(1, "a"), Close(2, "a"), Change(2)]);
  }

  /** A run through given states, step by step. */
  lemma {:induction false} RunThrough(states: seq<State>, events: seq<Event>)
    requires |states| == |events| + 1
    requires forall i :: 0 <= i < |events| ==> Take(states[i], events[i]) == Some(states[i + 1])
    ensures Run(states[0], events) == Some(states[|events|])
    decreases |events|
  {
    hide Take;
    if events != [] {
      forall i | 0 <= i < |events[1..]| ensures Take(states[1..][i], events[1..][i]) == Some(states[1..][i + 1]) {
        assert Take(states[i + 1], events[i + 1]) == Some(states[i + 2]);
      }
      RunThrough(states[1..], events[1..]);
    }
  }

  lemma {:induction false} RunConcat(s: State, a: seq<Event>, b: seq<Event>)
    requires Run(s, a).Some?
    ensures Run(s, a + b) == Run(Run(s, a).value, b)
    decreases |a|
  {
    hide Take;
    if a == [] {
      assert a + b == b;
    } else {
      assert (a + b)[1..] == a[1..] + b;
      RunConcat(Take(s, a[0]).value, a[1..], b);
    }
  }

  // ----- progress

  /** A step that a call in flight takes on its own, giving nothing up. */
  function Next(s: State, c: nat): Event
    requires c in s.calls
  {
    match s.calls[c]
    case Changed => Lock(c)
    case Locked => Count(c)
    case Counted(_) => Stop(c)
    case Stopped(_) => Finish(c)
    case Describing(_) => GiveUp(c)
    case _ => Change(c)
  }

  function StepsLeft(phase: Phase): nat {
    match phase
    case Opening(_) => 5
    case Closing(_) => 5
    case Describing(_) => 1
    case Changed => 4
    case Locked => 3
    case Counted(_) => 2
    case Stopped(_) => 1
  }

  lemma CallSteps(s: State, c: nat)
    requires Inv(s) && c in s.calls && (s.holder == None || s.holder == Some(c))
    ensures var e := Next(s, c);
            && Take(s, e).Some? && !Unnoticed(s, e)
            && var t := Take(s, e).value;
            && t.calls - {c} == s.calls - {c}
            && if c in t.calls then StepsLeft(t.calls[c]) < StepsLeft(s.calls[c]) && (t.holder == None || t.holder == Some(c))
               else t.calls == s.calls - {c} && t.holder == None
  {
  }

  /** The call with the lock, or any call if none has it, can run to its end. */
  lemma {:induction false} CallEnds(s: State, c: nat) returns (events: seq<Event>, t: State)
    requires Inv(s) && c in s.calls && (s.holder == None || s.holder == Some(c))
    ensures Run(s, events) == Some(t) && Inv(t) && t.holder == None && t.calls == s.calls - {c}
    decreases StepsLeft(s.calls[c])
  {
    hide Take, Inv, Next, StepsLeft, Unnoticed;
    var e := Next(s, c);
    CallSteps(s, c);
    var next := Take(s, e).value;
    TakeKeepsInv(s, e);
    if c in next.calls {
      var rest;
      rest, t := CallEnds(next, c);
      events := [e] + rest;
      assert events[1..] == rest;
    } else {
      events, t := [e], next;
      assert events[1..] == [];
    }
  }

  /** From every state all calls can come to their end: there is no deadlock, and at that end the
      timer is armed exactly when there are no sessions. */
  lemma {:induction false} AllCallsEnd(s: State) returns (events: seq<Event>, t: State)
    requires Inv(s)
    ensures Run(s, events) == Some(t) && t.calls == map[] && (t.armed <==> t.sessions == {})
    decreases |s.calls|
  {
    if s.calls == map[] {
      events, t := [], s;
    } else {
      var c :| c in s.calls;
      if s.holder.Some? {
        c := s.holder.value;
      }
      var first, rest, mid;
      first, mid := CallEnds(s, c);
      assert mid.calls.Keys == s.calls.Keys - {c};
      rest, t := AllCallsEnd(mid);
      RunConcat(s, first, rest);
      events := first + rest;
    }
  }
}
