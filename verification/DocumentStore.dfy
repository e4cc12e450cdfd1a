/** The store of open documents: texts, pending edits, base versions and cached position mappers. */
module DocumentStore {
  import opened Bytes
  import opened Wrappers
  import opened TextEdits
  import opened ContentChanges
  import opened Positions
  import opened Diffs
  import opened PositionMapping

  type Text = seq<Byte>

  // ----- the store as a value

  /** A position mapper, given by the two texts it was built from. */
  datatype Mapper = Mapper(baseText: Text, currentText: Text)

  datatype Document = Document(
    text: Text, version: int, edits: seq<TextEdit>, edited: bool, base: Option<Text>, mapper: Option<Mapper>
  )

  type Store = map<string, map<string, Document>>

  datatype Outcome =
    | Done
    | UuidNotFound
    | DocumentNotFound
    | DocumentOutdated
    | TooLarge
    | BadChange(cause: ChangeError)
    | Edits(edits: seq<TextEdit>)
    | MapperFor(mapper: Option<Mapper>)

  datatype Event =
    | Initialize(session: string)
    | EndSession(session: string)
    | Open(session: string, uri: string, text: Text, version: int)
    | Close(session: string, uri: string)
    | Change(session: string, uri: string, version: int, changes: seq<ContentChanges.Change>)
    | Save(session: string, uri: string, text: Text)
    | AddEdits(session: string, uri: string, version: int, edits: seq<TextEdit>)
    | WillSave(session: string, uri: string)
    | GetMapper(session: string, uri: string)
    | ResetBase(sessions: seq<string>, uri: string)

  predicate Has<D>(store: map<string, map<string, D>>, session: string, uri: string) {
    session in store && uri in store[session]
  }

  function Put(store: Store, session: string, uri: string, d: Document): Store
    requires session in store
  {
    store[session := store[session][uri := d]]
  }

  function NewDocument(text: Text, version: int, edited: bool, base: Option<Text>): Document {
    Document(text, version, [], edited, base, None)
  }

  /** The mapper that base and text call for. */
  function FreshMapper(d: Document): Mapper {
    Mapper(if d.base.Some? then d.base.value else d.text, d.text)
  }

  function WithMapper(d: Document): Document {
    if d.mapper.Some? then d else d.(mapper := Some(FreshMapper(d)))
  }

  function Reset(store: Store, session: string, uri: string): Store {
    if Has(store, session, uri) then Put(store, session, uri, store[session][uri].(base := None, mapper := None))
    else store
  }

  function ResetAll(store: Store, sessions: seq<string>, uri: string): Store {
    if sessions == [] then store
    else Reset(ResetAll(store, sessions[..|sessions| - 1], uri), sessions[|sessions| - 1], uri)
  }

  /** A change keeps the base, and makes the text before it the base if there was none. */
  function Changed(d: Document, text: Text, version: int): Document {
    NewDocument(text, version, true, Some(if d.base.Some? then d.base.value else d.text))
  }

  /** A store without a configured size limit takes no text at all. */
  predicate Fits(text: Text, maxSize: nat) {
    maxSize != 0 && |text| <= maxSize
  }

  /** The store and the answer after an event. */
  function Step(store: Store, maxSize: nat, e: Event): (Store, Outcome) {
    match e
    case Initialize(s) => (store[s := map[]], Done)
    case EndSession(s) => (store - {s}, Done)
    case Open(s, u, text, version) =>
      if s !in store then (store, UuidNotFound)
      else if !Fits(text, maxSize) then (store, Done)
      else (Put(store, s, u, NewDocument(text, version, false, None)), Done)
    case Close(s, u) =>
      if Has(store, s, u) then (store[s := store[s] - {u}], Done) else (store, Done)
    case Change(s, u, version, changes) =>
      if !Has(store, s, u) then (store, DocumentNotFound) else
        var d := store[s][u];
        (match ApplyAgainst(d.text, d.text, changes)
         case Err(error) => (store, BadChange(error))
         case Ok(text) =>
           if !Fits(text, maxSize) then (store, TooLarge)
           else (Put(store, s, u, Changed(d, text, version)), Done))
    case Save(s, u, text) =>
      if !Has(store, s, u) then (store, DocumentNotFound)
      else (Put(store, s, u, NewDocument(text, store[s][u].version, false, store[s][u].base)), Done)
    case AddEdits(s, u, version, edits) =>
      if !Has(store, s, u) then (store, DocumentNotFound)
      else if store[s][u].version != version then (store, DocumentOutdated)
      else (Put(store, s, u, store[s][u].(edits := store[s][u].edits + edits)), Done)
    case WillSave(s, u) =>
      if Has(store, s, u) then (store, Edits(store[s][u].edits)) else (store, DocumentNotFound)
    case GetMapper(s, u) =>
      if s !in store then (store, UuidNotFound)
      else if u !in store[s] then (store, MapperFor(None))
      else (Put(store, s, u, WithMapper(store[s][u])), MapperFor(WithMapper(store[s][u]).mapper))
    case ResetBase(sessions, u) => (ResetAll(store, sessions, u), Done)
  }

  function Run(maxSize: nat, events: seq<Event>): Store {
    if events == [] then map[]
    else Step(Run(maxSize, events[..|events| - 1]), maxSize, events[|events| - 1]).0
  }

  // ----- every run keeps cached mappers fresh

  ghost predicate MappersFresh(store: Store) {
    forall s, u :: Has(store, s, u) ==>
      var d := store[s][u]; d.mapper.Some? ==> d.mapper.value == FreshMapper(d)
  }

  lemma {:induction false} ResetKeepsFresh(store: Store, sessions: seq<string>, uri: string)
    requires MappersFresh(store)
    ensures MappersFresh(ResetAll(store, sessions, uri))
  {
    if sessions != [] {
      ResetKeepsFresh(store, sessions[..|sessions| - 1], uri);
    }
  }

  lemma StepKeepsFresh(store: Store, maxSize: nat, e: Event)
    requires MappersFresh(store)
    ensures MappersFresh(Step(store, maxSize, e).0)
  {
    hide ApplyAgainst;
    if e.ResetBase? {
      ResetKeepsFresh(store, e.sessions, e.uri);
    }
  }

  lemma {:induction false} RunKeepsFresh(maxSize: nat, events: seq<Event>)
    ensures MappersFresh(Run(maxSize, events))
  {
    if events != [] {
      hide Step, MappersFresh;
      RunKeepsFresh(maxSize, events[..|events| - 1]);
      StepKeepsFresh(Run(maxSize, events[..|events| - 1]), maxSize, events[|events| - 1]);
    } else {
      assert MappersFresh(map[]);
    }
  }

  /** In every run, a mapper asked for is the one that base and current text call for at that
      moment, whether it was cached or not. */
  lemma MapperIsCurrent(maxSize: nat, events: seq<Event>, s: string, u: string)
    requires Has(Run(maxSize, events), s, u)
    ensures Step(Run(maxSize, events), maxSize, GetMapper(s, u)).1
            == MapperFor(Some(FreshMapper(Run(maxSize, events)[s][u])))
  {
    hide Run;
    RunKeepsFresh(maxSize, events);
  }

  // ----- pending edits follow from the history of calls alone

  function OutcomeAt(maxSize: nat, events: seq<Event>, e: Event): Outcome {
    Step(Run(maxSize, events), maxSize, e).1
  }

  /** The call starts a new version of the document, or drops it. */
  predicate Restarts(maxSize: nat, before: seq<Event>, e: Event, s: string, u: string) {
    || (e == Initialize(s) || e == EndSession(s) || e == Close(s, u))
    || (e.Open? && e.session == s && e.uri == u && Fits(e.text, maxSize) && OutcomeAt(maxSize, before, e) == Done)
    || ((e.Change? || e.Save?) && e.session == s && e.uri == u && OutcomeAt(maxSize, before, e) == Done)
  }

  /** The edits that were accepted for a document since its last open, change or save. */
  function AcceptedSince(maxSize: nat, events: seq<Event>, s: string, u: string): seq<TextEdit> {
    if events == [] then [] else
      var before, e := events[..|events| - 1], events[|events| - 1];
      if Restarts(maxSize, before, e, s, u) then []
      else if e.AddEdits? && e.session == s && e.uri == u && OutcomeAt(maxSize, before, e) == Done
      then AcceptedSince(maxSize, before, s, u) + e.edits
      else AcceptedSince(maxSize, before, s, u)
  }

  lemma {:induction false} ResetKeepsEdits(store: Store, sessions: seq<string>, uri: string, s: string, u: string)
    ensures Has(ResetAll(store, sessions, uri), s, u) <==> Has(store, s, u)
    ensures Has(store, s, u) ==>
              && ResetAll(store, sessions, uri)[s][u].edits == store[s][u].edits
              && ResetAll(store, sessions, uri)[s][u].version == store[s][u].version
  {
    if sessions != [] {
      ResetKeepsEdits(store, sessions[..|sessions| - 1], uri, s, u);
    }
  }

  /** The call names the document or its session, or resets bases. */
  predicate Concerns(e: Event, s: string, u: string) {
    match e
    case Initialize(session) => session == s
    case EndSession(session) => session == s
    case ResetBase(_, _) => true
    case _ => e.session == s && e.uri == u
  }

  lemma StepElsewhere(store: Store, maxSize: nat, e: Event, s: string, u: string)
    requires !Concerns(e, s, u)
    ensures var after := Step(store, maxSize, e).0;
            Has(after, s, u) == Has(store, s, u) && (Has(store, s, u) ==> after[s][u] == store[s][u])
  {
    hide ApplyAgainst, ResetAll;
  }

  lemma StepEdits(maxSize: nat, before: seq<Event>, e: Event, s: string, u: string)
    requires var store := Run(maxSize, before);
             Has(store, s, u) ==> store[s][u].edits == AcceptedSince(maxSize, before, s, u)
    ensures var store := Step(Run(maxSize, before), maxSize, e).0;
            Has(store, s, u) ==> store[s][u].edits == AcceptedSince(maxSize, before + [e], s, u)
  {
    hide Run, ApplyAgainst, ResetAll;
    assert (before + [e])[..|before|] == before;
    if !Concerns(e, s, u) {
      StepElsewhere(Run(maxSize, before), maxSize, e, s, u);
      hide Step, OutcomeAt;
    } else {
      var store := Run(maxSize, before);
      if e.ResetBase? {
        ResetKeepsEdits(store, e.sessions, e.uri, s, u);
      }
      if e.AddEdits? {
        assert [] + e.edits == e.edits && forall x: seq<TextEdit> :: x + [] == x;
      }
    }
  }

  lemma {:induction false} PendingEdits(maxSize: nat, events: seq<Event>, s: string, u: string)
    ensures var store := Run(maxSize, events);
            Has(store, s, u) ==> store[s][u].edits == AcceptedSince(maxSize, events, s, u)
  {
    if events != [] {
      hide Step, AcceptedSince;
      var before, e := events[..|events| - 1], events[|events| - 1];
      PendingEdits(maxSize, before, s, u);
      StepEdits(maxSize, before, e, s, u);
      assert before + [e] == events;
    }
  }

  /** In every run, what is offered before a save is exactly the edits accepted since the last
      open, change or save of the document, in order. */
  lemma WillSaveOffersAccepted(maxSize: nat, events: seq<Event>, s: string, u: string)
    ensures OutcomeAt(maxSize, events, WillSave(s, u))
            == if Has(Run(maxSize, events), s, u) then Edits(AcceptedSince(maxSize, events, s, u)) else DocumentNotFound
  {
    hide Run, AcceptedSince;
    PendingEdits(maxSize, events, s, u);
  }

  /** The version of a document, from the last open or change. */
  function CurrentVersion(maxSize: nat, events: seq<Event>, s: string, u: string): Option<int> {
    if events == [] then None else
      var before, e := events[..|events| - 1], events[|events| - 1];
      if !Restarts(maxSize, before, e, s, u) then CurrentVersion(maxSize, before, s, u)
      else if e.Open? || e.Change? then Some(e.version)
      else if e.Save? then CurrentVersion(maxSize, before, s, u)
      else None
  }

  lemma StepVersion(maxSize: nat, before: seq<Event>, e: Event, s: string, u: string)
    requires var store := Run(maxSize, before);
             CurrentVersion(maxSize, before, s, u) == if Has(store, s, u) then Some(store[s][u].version) else None
    ensures var store := Step(Run(maxSize, before), maxSize, e).0;
            CurrentVersion(maxSize, before + [e], s, u) == if Has(store, s, u) then Some(store[s][u].version) else None
  {
    hide Run, ApplyAgainst, ResetAll;
    assert (before + [e])[..|before|] == before;
    if !Concerns(e, s, u) {
      StepElsewhere(Run(maxSize, before), maxSize, e, s, u);
      hide Step, OutcomeAt;
    } else {
      if e.ResetBase? {
        ResetKeepsEdits(Run(maxSize, before), e.sessions, e.uri, s, u);
      }
    }
  }

  lemma {:induction false} VersionFollowsHistory(maxSize: nat, events: seq<Event>, s: string, u: string)
    ensures var store := Run(maxSize, events);
            CurrentVersion(maxSize, events, s, u) == if Has(store, s, u) then Some(store[s][u].version) else None
  {
    if events != [] {
      hide Step, CurrentVersion;
      var before, e := events[..|events| - 1], events[|events| - 1];
      VersionFollowsHistory(maxSize, before, s, u);
      StepVersion(maxSize, before, e, s, u);
      assert before + [e] == events;
    }
  }

  /** Edits are accepted exactly for the current version of a tracked document. */
  lemma AcceptedIffCurrent(maxSize: nat, events: seq<Event>, s: string, u: string, version: int, edits: seq<TextEdit>)
    ensures OutcomeAt(maxSize, events, AddEdits(s, u, version, edits)) == Done
            <==> CurrentVersion(maxSize, events, s, u) == Some(version)
  {
    hide Run, CurrentVersion;
    VersionFollowsHistory(maxSize, events, s, u);
  }

  // ----- text and base follow from the history of calls alone

  /** The session has been initialized and not ended since. */
  predicate IsStarted(events: seq<Event>, s: string) {
    events != [] &&
    var e := events[|events| - 1];
    e == Initialize(s) || (e != EndSession(s) && IsStarted(events[..|events| - 1], s))
  }

  /** What a change makes of a text, if it can be made and the result is not too large. */
  function ChangedText(maxSize: nat, text: Text, changes: seq<ContentChanges.Change>): Option<Text> {
    match ApplyAgainst(text, text, changes)
    case Err(_) => None
    case Ok(changed) => if maxSize > 0 && |changed| <= maxSize then Some(changed) else None
  }

  /** The text of a document, none if it is not tracked: that of the last open of a started session,
      or of the last save, with the later changes made. */
  function TextOf(maxSize: nat, events: seq<Event>, s: string, u: string): Option<Text> {
    if events == [] then None
    else
      var before, e := events[..|events| - 1], events[|events| - 1];
      var text := TextOf(maxSize, before, s, u);
      if e == Initialize(s) || e == EndSession(s) || e == Close(s, u) then None
      else if e.Open? && e.session == s && e.uri == u && IsStarted(before, s) && maxSize > 0 && |e.text| <= maxSize then Some(e.text)
      else if e.Save? && e.session == s && e.uri == u && text.Some? then Some(e.text)
      else if e.Change? && e.session == s && e.uri == u && text.Some? && ChangedText(maxSize, text.value, e.changes).Some?
      then ChangedText(maxSize, text.value, e.changes)
      else text
  }

  /** The base of a document: the text before the first change since it was opened or its base was
      reset. A save keeps it. */
  function BaseOf(maxSize: nat, events: seq<Event>, s: string, u: string): Option<Text> {
    if events == [] then None
    else
      var before, e := events[..|events| - 1], events[|events| - 1];
      var text, base := TextOf(maxSize, before, s, u), BaseOf(maxSize, before, s, u);
      if e == Initialize(s) || e == EndSession(s) || e == Close(s, u) then None
      else if e.Open? && e.session == s && e.uri == u && IsStarted(before, s) && maxSize > 0 && |e.text| <= maxSize then None
      else if e.ResetBase? && e.uri == u && s in e.sessions then None
      else if e.Change? && e.session == s && e.uri == u && text.Some? && ChangedText(maxSize, text.value, e.changes).Some? && base == None
      then text
      else base
  }

  /** The document has been changed since it was last opened or saved. */
  predicate IsEdited(maxSize: nat, events: seq<Event>, s: string, u: string) {
    events != [] &&
    var before, e := events[..|events| - 1], events[|events| - 1];
    var text := TextOf(maxSize, before, s, u);
    if e == Initialize(s) || e == EndSession(s) || e == Close(s, u) then false
    else if e.Open? && e.session == s && e.uri == u && IsStarted(before, s) && maxSize > 0 && |e.text| <= maxSize then false
    else if e.Save? && e.session == s && e.uri == u && text.Some? then false
    else if e.Change? && e.session == s && e.uri == u && text.Some? && ChangedText(maxSize, text.value, e.changes).Some? then true
    else IsEdited(maxSize, before, s, u)
  }

  /** The store agrees with the history about a session and a document. */
  predicate Tells(maxSize: nat, events: seq<Event>, store: Store, s: string, u: string) {
    && (s in store <==> IsStarted(events, s))
    && (Has(store, s, u) <==> TextOf(maxSize, events, s, u).Some?)
    && (Has(store, s, u) ==>
          && TextOf(maxSize, events, s, u) == Some(store[s][u].text)
          && BaseOf(maxSize, events, s, u) == store[s][u].base
          && IsEdited(maxSize, events, s, u) == store[s][u].edited)
    && (!Has(store, s, u) ==> BaseOf(maxSize, events, s, u) == None)
  }

  lemma {:induction false} ResetAt(store: Store, sessions: seq<string>, uri: string, s: string, u: string)
    ensures ResetAll(store, sessions, uri).Keys == store.Keys
    ensures Has(ResetAll(store, sessions, uri), s, u) <==> Has(store, s, u)
    ensures Has(store, s, u) ==>
              var d := ResetAll(store, sessions, uri)[s][u];
              d.text == store[s][u].text && d.edited == store[s][u].edited && d.base == if u == uri && s in sessions then None else store[s][u].base
  {
    if sessions != [] {
      var front, last := sessions[..|sessions| - 1], sessions[|sessions| - 1];
      ResetAt(store, front, uri, s, u);
      assert sessions == front + [last];
    }
  }

  lemma HistoryElsewhere(maxSize: nat, before: seq<Event>, e: Event, store: Store, s: string, u: string)
    requires Tells(maxSize, before, store, s, u) && !Concerns(e, s, u)
    ensures Tells(maxSize, before + [e], Step(store, maxSize, e).0, s, u)
  {
    hide ApplyAgainst, ResetAll, ChangedText;
    assert (before + [e])[..|before|] == before;
    StepElsewhere(store, maxSize, e, s, u);
    SessionsElsewhere(store, maxSize, e, s, u);
    hide Step;
  }

  lemma SessionsElsewhere(store: Store, maxSize: nat, e: Event, s: string, u: string)
    requires !Concerns(e, s, u)
    ensures s in Step(store, maxSize, e).0 <==> s in store
  {
    hide ApplyAgainst, ResetAll;
  }

  lemma HistoryOfChange(maxSize: nat, before: seq<Event>, e: Event, store: Store)
    requires e.Change? && Tells(maxSize, before, store, e.session, e.uri)
    ensures Tells(maxSize, before + [e], Step(store, maxSize, e).0, e.session, e.uri)
  {
    hide ApplyAgainst, ResetAll;
    assert (before + [e])[..|before|] == before;
  }

  lemma HistoryOfOpen(maxSize: nat, before: seq<Event>, e: Event, store: Store)
    requires e.Open? && Tells(maxSize, before, store, e.session, e.uri)
    ensures Tells(maxSize, before + [e], Step(store, maxSize, e).0, e.session, e.uri)
  {
    hide ApplyAgainst, ResetAll, ChangedText;
    assert (before + [e])[..|before|] == before;
    var after := Step(store, maxSize, e).0;
    assert after.Keys == store.Keys;
  }

  lemma HistoryOfSave(maxSize: nat, before: seq<Event>, e: Event, store: Store)
    requires e.Save? && Tells(maxSize, before, store, e.session, e.uri)
    ensures Tells(maxSize, before + [e], Step(store, maxSize, e).0, e.session, e.uri)
  {
    hide ApplyAgainst, ResetAll, ChangedText;
    assert (before + [e])[..|before|] == before;
  }

  lemma HistoryOfReset(maxSize: nat, before: seq<Event>, e: Event, store: Store, s: string, u: string)
    requires e.ResetBase? && Tells(maxSize, before, store, s, u)
    ensures Tells(maxSize, before + [e], Step(store, maxSize, e).0, s, u)
  {
    hide ApplyAgainst, ResetAll, ChangedText;
    assert (before + [e])[..|before|] == before;
    ResetAt(store, e.sessions, e.uri, s, u);
  }

  lemma HistoryOfOthers(maxSize: nat, before: seq<Event>, e: Event, store: Store, s: string, u: string)
    requires Concerns(e, s, u) && !e.Change? && !e.Open? && !e.Save? && !e.ResetBase? && Tells(maxSize, before, store, s, u)
    ensures Tells(maxSize, before + [e], Step(store, maxSize, e).0, s, u)
  {
    hide ApplyAgainst, ResetAll, ChangedText;
    assert (before + [e])[..|before|] == before;
  }

  lemma HistoryStep(maxSize: nat, before: seq<Event>, e: Event, store: Store, s: string, u: string)
    requires Tells(maxSize, before, store, s, u)
    ensures Tells(maxSize, before + [e], Step(store, maxSize, e).0, s, u)
  {
    hide Tells, Step;
    if !Concerns(e, s, u) {
      HistoryElsewhere(maxSize, before, e, store, s, u);
    } else if e.Change? {
      HistoryOfChange(maxSize, before, e, store);
    } else if e.Open? {
      HistoryOfOpen(maxSize, before, e, store);
    } else if e.Save? {
      HistoryOfSave(maxSize, before, e, store);
    } else if e.ResetBase? {
      HistoryOfReset(maxSize, before, e, store, s, u);
    } else {
      HistoryOfOthers(maxSize, before, e, store, s, u);
    }
  }

  /** In every run, what is tracked, its text and its base are what the history of calls says. */
  lemma {:induction false} HistoryTells(maxSize: nat, events: seq<Event>, s: string, u: string)
    ensures Tells(maxSize, events, Run(maxSize, events), s, u)
  {
    if events != [] {
      hide Step, Tells;
      var before, e := events[..|events| - 1], events[|events| - 1];
      HistoryTells(maxSize, before, s, u);
      HistoryStep(maxSize, before, e, Run(maxSize, before), s, u);
      assert before + [e] == events;
    }
  }

  /** In every run, a mapper asked for is the one from the base to the text that the history of calls
      says, or from the text to itself without a base; whether it was cached or not. */
  lemma MapperFollowsHistory(maxSize: nat, events: seq<Event>, s: string, u: string)
    ensures var text, base := TextOf(maxSize, events, s, u), BaseOf(maxSize, events, s, u);
            OutcomeAt(maxSize, events, GetMapper(s, u)) ==
            if !IsStarted(events, s) then UuidNotFound
            else if text == None then MapperFor(None)
            else MapperFor(Some(Mapper(if base.Some? then base.value else text.value, text.value)))
  {
    hide Run, TextOf, BaseOf, IsStarted, IsEdited;
    HistoryTells(maxSize, events, s, u);
    if Has(Run(maxSize, events), s, u) {
      MapperIsCurrent(maxSize, events, s, u);
    }
  }

  /** The answers to the other calls, from the history of calls. */
  lemma AnswersFollowHistory(maxSize: nat, events: seq<Event>, s: string, u: string)
    ensures forall text, version :: OutcomeAt(maxSize, events, Open(s, u, text, version)) ==
                                    if IsStarted(events, s) then Done else UuidNotFound
    ensures forall text :: OutcomeAt(maxSize, events, Save(s, u, text)) ==
                           if TextOf(maxSize, events, s, u).Some? then Done else DocumentNotFound
    ensures forall version, edits :: OutcomeAt(maxSize, events, AddEdits(s, u, version, edits)) ==
                                     if TextOf(maxSize, events, s, u) == None then DocumentNotFound
                                     else if CurrentVersion(maxSize, events, s, u) == Some(version) then Done else DocumentOutdated
    ensures forall version, changes :: OutcomeAt(maxSize, events, Event.Change(s, u, version, changes)) == Done <==>
                                       && TextOf(maxSize, events, s, u).Some?
                                       && ChangedText(maxSize, TextOf(maxSize, events, s, u).value, changes).Some?
  {
    hide Run, TextOf, BaseOf, IsStarted, IsEdited, CurrentVersion, ApplyAgainst;
    HistoryTells(maxSize, events, s, u);
    VersionFollowsHistory(maxSize, events, s, u);
  }

  /** In every run, the mapper answered takes every position of the base to a position of the
      text that is tracked, in order, by whatever script leads from the one to the other. */
  lemma MapperMapsEveryPosition(maxSize: nat, events: seq<Event>, s: string, u: string, diffs: seq<Diff>, p: Position, q: Position)
    requires Has(Run(maxSize, events), s, u) && SplitsAtRunes(diffs)
    requires OutcomeAt(maxSize, events, GetMapper(s, u)) == MapperFor(Some(Mapper(Source(diffs), Target(diffs))))
    requires IsPositionOf(Source(diffs), p) && IsPositionOf(Source(diffs), q) && AtMost(p, q)
    ensures var d := Run(maxSize, events)[s][u];
            && Source(diffs) == (if d.base.Some? then d.base.value else d.text) && Target(diffs) == d.text
            && MapPosition(diffs, p).error == None && IsPositionOf(d.text, MapPosition(diffs, p).position)
            && AtMost(MapPosition(diffs, p).position, MapPosition(diffs, q).position)
  {
    hide Run, Step, Source, Target, SplitsAtRunes, MapPosition, IsPositionOf;
    MapperIsCurrent(maxSize, events, s, u);
    MapsEveryPosition(diffs, p);
    MapMonotone(diffs, p, q);
  }

  // ----- the store as linked entries

  /** An entry's text and version never change; its base is an older entry of the document. */
  class Entry {
    const text: Text
    const version: int
    const edited: bool
    var edits: seq<TextEdit>
    var base: Entry?
    var mapper: Option<Mapper>
    /** The session and document that the entry was made for. */
    ghost const owner: (string, string)

    constructor (text: Text, version: int, edited: bool, base: Entry?, ghost owner: (string, string))
      ensures this.text == text && this.version == version && this.edited == edited
      ensures edits == [] && this.base == base && mapper == None && this.owner == owner
    {
      this.text, this.version, this.edited := text, version, edited;
      edits, this.base, mapper, this.owner := [], base, None, owner;
    }

    ghost function Value(): Document
      reads this
    {
      Document(text, version, edits, edited, if base == null then None else Some(base.text), mapper)
    }
  }

  type Entries = map<string, map<string, Entry>>

  /** The store holds the values of the tracked entries, each of which belongs to its document alone. */
  ghost predicate Shows(documents: Entries, store: Store, values: map<Entry, Document>) {
    && store.Keys == documents.Keys
    && (forall s :: s in documents ==> store[s].Keys == documents[s].Keys)
    && (forall s, u :: Has(documents, s, u) ==>
          && documents[s][u] in values && documents[s][u].owner == (s, u)
          && store[s][u] == values[documents[s][u]])
  }

  lemma ShowsTracked(documents: Entries, store: Store, values: map<Entry, Document>, s: string, u: string)
    requires Shows(documents, store, values)
    ensures s in store <==> s in documents
    ensures Has(store, s, u) <==> Has(documents, s, u)
    ensures Has(store, s, u) ==>
              && documents[s][u] in values && documents[s][u].owner == (s, u) && store[s][u] == values[documents[s][u]]
  {
  }

  lemma ShowsNewSession(documents: Entries, store: Store, values: map<Entry, Document>, s: string)
    requires Shows(documents, store, values)
    ensures Shows(documents[s := map[]], store[s := map[]], values)
  {
    forall s', u | Has(documents[s := map[]], s', u) ensures Has(documents, s', u) && s' != s {
    }
  }

  lemma ShowsEndedSession(documents: Entries, store: Store, values: map<Entry, Document>, s: string)
    requires Shows(documents, store, values)
    ensures Shows(documents - {s}, store - {s}, values)
  {
    forall s', u | Has(documents - {s}, s', u) ensures Has(documents, s', u) && s' != s {
    }
  }

  lemma ShowsClosed(documents: Entries, store: Store, values: map<Entry, Document>, s: string, u: string)
    requires Shows(documents, store, values) && Has(documents, s, u)
    ensures s in store && Shows(documents[s := documents[s] - {u}], store[s := store[s] - {u}], values)
  {
    var documents', store' := documents[s := documents[s] - {u}], store[s := store[s] - {u}];
    forall s', u' | Has(documents', s', u') ensures Has(documents, s', u') && store'[s'][u'] == store[s'][u'] {
    }
  }

  /** A new entry in place of another, or a new value for the entry that is there. */
  lemma ShowsPut(documents: Entries, store: Store, values: map<Entry, Document>, values': map<Entry, Document>, s: string, u: string, e: Entry)
    requires Shows(documents, store, values) && s in documents && e.owner == (s, u)
    requires values'.Keys == values.Keys + {e} && forall x :: x in values && x != e ==> values'[x] == values[x]
    ensures s in store && Shows(documents[s := documents[s][u := e]], Put(store, s, u, values'[e]), values')
  {
    var documents', store' := documents[s := documents[s][u := e]], Put(store, s, u, values'[e]);
    forall s', u' | Has(documents', s', u')
      ensures documents'[s'][u'] in values' && documents'[s'][u'].owner == (s', u')
      ensures store'[s'][u'] == values'[documents'[s'][u']]
    {
      if (s', u') != (s, u) {
        assert Has(documents, s', u') && documents'[s'][u'] == documents[s'][u'];
      }
    }
  }

  lemma SameEntry(documents: Entries, s: string, u: string)
    requires Has(documents, s, u)
    ensures documents[s := documents[s][u := documents[s][u]]] == documents
  {
    assert documents[s][u := documents[s][u]] == documents[s];
  }

  class Controller {
    const maxSize: nat
    var documents: Entries
    /** Every entry ever made. */
    ghost var entries: set<Entry>
    /** The value of the store. */
    ghost var store: Store

    /** No base has a base. */
    ghost predicate BasesAreFlat()
      reads this, entries
    {
      forall e :: e in entries && e.base != null ==> e.base in entries && e.base.base == null
    }

    /** Also the entries that are no longer tracked have no other mapper than a fresh one. */
    ghost predicate MappersAreFresh()
      reads this, entries
    {
      forall e :: e in entries && e.mapper.Some? ==> e.mapper.value == FreshMapper(e.Value())
    }

    ghost function Values(): (values: map<Entry, Document>)
      reads this, entries
      ensures values.Keys == entries
    {
      map e | e in entries :: e.Value()
    }

    ghost predicate Valid()
      reads this, entries
    {
      BasesAreFlat() && MappersAreFresh() && Shows(documents, store, Values())
    }

    constructor (maxSize: nat)
      ensures Valid() && this.maxSize == maxSize && store == map[]
    {
      this.maxSize := maxSize;
      documents, entries, store := map[], {}, map[];
    }

    method Initialize(s: string)
      requires Valid()
      modifies this
      ensures Valid() && store == Step(old(store), maxSize, Event.Initialize(s)).0
    {
      hide ApplyAgainst, ResetAll, Shows, Entry.Value;
      ShowsNewSession(documents, store, Values(), s);
      documents := documents[s := map[]];
      store := store[s := map[]];
      assert Values() == old(Values());
    }

    method EndSession(s: string)
      requires Valid()
      modifies this
      ensures Valid() && store == Step(old(store), maxSize, Event.EndSession(s)).0
    {
      hide ApplyAgainst, ResetAll, Shows, Entry.Value;
      ShowsEndedSession(documents, store, Values(), s);
      documents := documents - {s};
      store := store - {s};
      assert Values() == old(Values());
    }

    /** Puts a new entry in place of a document's entry. */
    method Replace(s: string, u: string, e: Entry)
      requires Valid() && s in documents && e !in entries && e.owner == (s, u) && e.mapper == None
      requires e.base != null ==> e.base in entries && e.base.base == null
      modifies this
      ensures Valid() && s in old(store) && store == Put(old(store), s, u, e.Value())
    {
      hide Shows, Put, Entry.Value, FreshMapper;
      ShowsPut(documents, store, Values(), Values()[e := e.Value()], s, u, e);
      documents := documents[s := documents[s][u := e]];
      entries := entries + {e};
      store := Put(store, s, u, e.Value());
      assert Values() == old(Values())[e := e.Value()];
    }

    method DidOpen(s: string, u: string, text: Text, version: int) returns (r: Outcome)
      requires Valid()
      modifies this
      ensures Valid() && (store, r) == Step(old(store), maxSize, Open(s, u, text, version))
    {
      hide ApplyAgainst, ResetAll, Put, Shows;
      ShowsTracked(documents, store, Values(), s, u);
      if s !in documents {
        return UuidNotFound;
      }
      if !Fits(text, maxSize) {
        return Done;
      }
      var e := new Entry(text, version, false, null, (s, u));
      Replace(s, u, e);
      return Done;
    }

    method DidClose(s: string, u: string) returns (r: Outcome)
      requires Valid()
      modifies this
      ensures Valid() && (store, r) == Step(old(store), maxSize, Close(s, u))
    {
      hide ApplyAgainst, ResetAll, Shows, Entry.Value;
      ShowsTracked(documents, store, Values(), s, u);
      if s in documents && u in documents[s] {
        ShowsClosed(documents, store, Values(), s, u);
        documents := documents[s := documents[s] - {u}];
        store := store[s := store[s] - {u}];
        assert Values() == old(Values());
      }
      return Done;
    }

    method DidChange(s: string, u: string, version: int, changes: seq<ContentChanges.Change>) returns (r: Outcome)
      requires Valid()
      modifies this
      ensures Valid() && (store, r) == Step(old(store), maxSize, Event.Change(s, u, version, changes))
    {
      hide ApplyAgainst, ResetAll, Put, Shows;
      ShowsTracked(documents, store, Values(), s, u);
      if !(s in documents && u in documents[s]) {
        return DocumentNotFound;
      }
      var initial := documents[s][u];
      var text := ApplyContentChanges(initial.text, changes);
      if text.Err? {
        return BadChange(text.error);
      }
      if !Fits(text.value, maxSize) {
        return TooLarge;
      }
      var base := if initial.base == null then initial else initial.base;
      var e := new Entry(text.value, version, true, base, (s, u));
      Replace(s, u, e);
      return Done;
    }

    method DidSave(s: string, u: string, text: Text) returns (r: Outcome)
      requires Valid()
      modifies this
      ensures Valid() && (store, r) == Step(old(store), maxSize, Save(s, u, text))
    {
      hide ApplyAgainst, ResetAll, Put, Shows;
      ShowsTracked(documents, store, Values(), s, u);
      if !(s in documents && u in documents[s]) {
        return DocumentNotFound;
      }
      var e := new Entry(text, documents[s][u].version, false, documents[s][u].base, (s, u));
      Replace(s, u, e);
      return Done;
    }

    /** The entry of a document, found under the lock of the documents. */
    method FindEntry(s: string, u: string) returns (r: Result<Entry, Outcome>)
      requires Valid()
      ensures match r
              case Ok(e) => Has(documents, s, u) && e == documents[s][u] && e in entries && e.owner == (s, u)
              case Err(o) => !Has(store, s, u) && o == if s in store then DocumentNotFound else UuidNotFound
    {
      hide Shows;
      ShowsTracked(documents, store, Values(), s, u);
      if s !in documents {
        return Err(UuidNotFound);
      }
      if u !in documents[s] {
        return Err(DocumentNotFound);
      }
      return Ok(documents[s][u]);
    }

    /** The entry is the one that its document is tracked with. */
    ghost predicate IsTracked(e: Entry)
      reads this
    {
      Has(documents, e.owner.0, e.owner.1) && documents[e.owner.0][e.owner.1] == e
    }

    /** The store after an entry has got a new value: changed where the entry is tracked, and as
        it was if the document has another entry by now. */
    ghost function StoreWith(e: Entry, value: Document): Store
      reads this
    {
      if IsTracked(e) && e.owner.0 in store then Put(store, e.owner.0, e.owner.1, value) else store
    }

    /** Follows, in the store's value, a change made in place to an entry. */
    ghost method Follow(e: Entry, values: map<Entry, Document>)
      requires e in entries && BasesAreFlat() && MappersAreFresh() && Shows(documents, store, values)
      requires values.Keys == entries && Values() == values[e := e.Value()]
      modifies this`store
      ensures Valid() && store == old(StoreWith(e, e.Value()))
    {
      hide Shows, Put, Entry.Value;
      var (s, u) := e.owner;
      if IsTracked(e) {
        SameEntry(documents, s, u);
        ShowsPut(documents, store, values, Values(), s, u, e);
        store := Put(store, s, u, e.Value());
        assert Values() == old(Values());
      } else {
        ShowsUntracked(documents, store, values, Values(), e);
      }
    }

    /** The locked part of adding edits. */
    method AddLocked(s: string, u: string, version: int, edits: seq<TextEdit>) returns (r: Outcome)
      requires Valid()
      modifies this`store, entries
      ensures Valid() && (store, r) == Step(old(store), maxSize, AddEdits(s, u, version, edits))
    {
      hide ApplyAgainst, ResetAll, Put, Shows;
      ShowsTracked(documents, store, Values(), s, u);
      if !(s in documents && u in documents[s]) {
        return DocumentNotFound;
      }
      var e := documents[s][u];
      if e.version != version {
        return DocumentOutdated;
      }
      AppendEdits(e, edits);
      return Done;
    }

    method AppendEdits(e: Entry, edits: seq<TextEdit>)
      requires Valid() && e in entries
      modifies this`store, entries
      ensures Valid() && store == old(StoreWith(e, e.Value().(edits := e.edits + edits)))
    {
      hide Shows, Put;
      ghost var values := Values();
      e.edits := e.edits + edits;
      assert Values() == values[e := e.Value()];
      Follow(e, values);
    }

    /** Looks for the session first, without a lock; another call may come before the rest. */
    method AddPendingEdits(s: string, u: string, version: int, edits: seq<TextEdit>) returns (r: Outcome)
      requires Valid()
      modifies this`store, entries
      ensures Valid()
      ensures edits == [] ==> r == Done && store == old(store)
      ensures edits != [] && s !in old(store) ==> r == UuidNotFound && store == old(store)
      ensures edits != [] && s in old(store) ==> (store, r) == Step(old(store), maxSize, AddEdits(s, u, version, edits))
    {
      hide Step, Shows;
      ShowsTracked(documents, store, Values(), s, u);
      if edits == [] {
        return Done;
      }
      if s !in documents {
        return UuidNotFound;
      }
      r := AddLocked(s, u, version, edits);
    }

    method WillSaveWaitUntil(s: string, u: string) returns (r: Outcome)
      requires Valid()
      ensures (store, r) == Step(store, maxSize, WillSave(s, u))
    {
      hide ApplyAgainst, ResetAll, Shows;
      ShowsTracked(documents, store, Values(), s, u);
      if !(s in documents && u in documents[s]) {
        return DocumentNotFound;
      }
      return Edits(documents[s][u].edits);
    }

    /** The mapper of an entry, cached under the entry's own lock. The entry was found earlier, and
        its document may have been changed, reset or closed since: the mapper is still the fresh
        one for the entry, and no tracked document gets another's. */
    method MapperOf(e: Entry) returns (m: Mapper)
      requires Valid() && e in entries
      modifies this`store, entries
      ensures Valid() && m == FreshMapper(old(e.Value()))
      ensures store == old(StoreWith(e, WithMapper(e.Value())))
    {
      hide Shows, Put;
      ghost var values := Values();
      if e.mapper == None {
        e.mapper := Some(Mapper(if e.base == null then e.text else e.base.text, e.text));
      }
      assert Values() == values[e := e.Value()];
      Follow(e, values);
      return e.mapper.value;
    }

    method GetPositionMapper(s: string, u: string) returns (r: Outcome)
      requires Valid()
      modifies this`store, entries
      ensures Valid() && (store, r) == Step(old(store), maxSize, GetMapper(s, u))
    {
      hide ApplyAgainst, ResetAll, Put, Shows;
      ShowsTracked(documents, store, Values(), s, u);
      var found := FindEntry(s, u);
      if found.Err? {
        return if found.error == DocumentNotFound then MapperFor(None) else found.error;
      }
      var m := MapperOf(found.value);
      return MapperFor(Some(m));
    }

    method ClearBase(s: string, u: string)
      requires Valid()
      modifies this`store, entries
      ensures Valid() && store == Reset(old(store), s, u)
    {
      hide Put, Shows;
      ghost var values := Values();
      ShowsTracked(documents, store, values, s, u);
      if s in documents && u in documents[s] {
        var e := documents[s][u];
        e.base := null;
        e.mapper := None;
        assert Values() == values[e := e.Value()];
        Follow(e, values);
      }
    }

    method ResetBaseIn(sessions: seq<string>, u: string)
      requires Valid()
      modifies this`store, entries
      ensures Valid() && store == Step(old(store), maxSize, ResetBase(sessions, u)).0
    {
      hide ApplyAgainst, Valid, Reset;
      for i := 0 to |sessions|
        invariant Valid() && store == ResetAll(old(store), sessions[..i], u)
      {
        assert sessions[..i + 1][..i] == sessions[..i];
        ClearBase(sessions[i], u);
      }
      assert sessions[..|sessions|] == sessions;
    }
  }

  /** A new value for an entry that is not tracked shows nowhere. */
  lemma ShowsUntracked(documents: Entries, store: Store, values: map<Entry, Document>, values': map<Entry, Document>, e: Entry)
    requires Shows(documents, store, values)
    requires values'.Keys == values.Keys && forall x :: x in values && x != e ==> values'[x] == values[x]
    requires !(Has(documents, e.owner.0, e.owner.1) && documents[e.owner.0][e.owner.1] == e)
    ensures Shows(documents, store, values')
  {
  }
}
