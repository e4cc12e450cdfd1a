/** The sender count of a notification handler and the wait group that its cleanup waits for. */
module SenderCounting {

  /** The count and the wait group's counter. */
  datatype Counts = Counts(senders: int, waiting: int)

  datatype Call = Add | Done

  function After(c: Counts, call: Call): Counts {
    match call
    case Add => if c.senders <= 0 then c else c.(senders := c.senders + 1)
    case Done => Counts(c.senders - 1, if c.senders - 1 == 0 then c.waiting - 1 else c.waiting)
  }

  const NEW := Counts(1, 1)

  function AfterAll(calls: seq<Call>): Counts {
    if calls == [] then NEW else After(AfterAll(calls[..|calls| - 1]), calls[|calls| - 1])
  }

  class Senders {
    var senderCount: int
    var waitGroup: int
    /** The calls so far. */
    ghost var calls: seq<Call>

    ghost predicate Valid()
      reads this
    {
      Counts(senderCount, waitGroup) == AfterAll(calls)
    }

    constructor ()
      ensures Valid() && calls == []
    {
      senderCount, waitGroup, calls := 1, 1, [];
    }

    /** Whether the handler has been released: the last sender left, at some time. */
    method IsClosed() returns (closed: bool)
      requires Valid()
      ensures closed <==> waitGroup == 0
      ensures closed <==> exists k :: 0 <= k <= |calls| && AfterAll(calls[..k]).senders == 0
    {
      ReleasedIffClosed(calls);
      ReleasedByFirstZero(calls);
      closed := senderCount <= 0;
    }

    method Add()
      requires Valid()
      modifies this
      ensures Valid() && calls == old(calls) + [Call.Add]
    {
      calls := calls + [Call.Add];
      if senderCount <= 0 {
        return;
      }
      senderCount := senderCount + 1;
    }

    method Done()
      requires Valid()
      modifies this
      ensures Valid() && calls == old(calls) + [Call.Done]
    {
      calls := calls + [Call.Done];
      senderCount := senderCount - 1;
      if senderCount == 0 {
        waitGroup := waitGroup - 1;
      }
    }
  }

  /** For every sequence of calls, extra Done calls included: the wait group is released at most
      once, and it has been released exactly when the handler is closed. */
  lemma {:induction false} ReleasedIffClosed(calls: seq<Call>)
    ensures AfterAll(calls).waiting == if AfterAll(calls).senders <= 0 then 0 else 1
  {
    if calls != [] {
      ReleasedIffClosed(calls[..|calls| - 1]);
    }
  }

  /** A closed handler never reopens. */
  lemma {:induction false} NeverReopens(calls: seq<Call>, more: seq<Call>)
    requires AfterAll(calls).senders <= 0
    ensures AfterAll(calls + more).senders <= 0
    decreases |more|
  {
    if more == [] {
      assert calls + more == calls;
    } else {
      NeverReopens(calls, more[..|more| - 1]);
      assert (calls + more)[..|calls + more| - 1] == calls + more[..|more| - 1];
    }
  }

  /** The release happens with the call after which the count is zero for the first time. */
  lemma {:induction false} ReleasedByFirstZero(calls: seq<Call>)
    ensures AfterAll(calls).waiting == 0 <==> exists k :: 0 <= k <= |calls| && AfterAll(calls[..k]).senders == 0
  {
    ReleasedIffClosed(calls);
    if calls != [] {
      var front := calls[..|calls| - 1];
      ReleasedByFirstZero(front);
      ReleasedIffClosed(front);
      assert calls[..|calls|] == calls;
      assert forall k :: 0 <= k <= |front| ==> front[..k] == calls[..k];
    }
  }

  function Adds(calls: seq<Call>): nat {
    if calls == [] then 0 else Adds(calls[..|calls| - 1]) + if calls[|calls| - 1] == Add then 1 else 0
  }

  function Dones(calls: seq<Call>): nat {
    if calls == [] then 0 else Dones(calls[..|calls| - 1]) + if calls[|calls| - 1] == Done then 1 else 0
  }

  /** The sender that made the handler and those added, less those that are done. */
  function Balance(calls: seq<Call>): int {
    1 + Adds(calls) - Dones(calls)
  }

  /** While the balance has not been zero, it is the count; and from its first zero on the handler is
      closed. */
  lemma {:induction false} ClosedByFirstBalance(calls: seq<Call>)
    ensures AfterAll(calls).senders <= 0 <==> exists k :: 0 <= k <= |calls| && Balance(calls[..k]) == 0
    ensures AfterAll(calls).senders > 0 ==> AfterAll(calls).senders == Balance(calls)
  {
    if calls != [] {
      var front := calls[..|calls| - 1];
      ClosedByFirstBalance(front);
      assert calls[..|calls|] == calls;
      assert forall k :: 0 <= k <= |front| ==> front[..k] == calls[..k];
      if AfterAll(calls).senders <= 0 && AfterAll(front).senders > 0 {
        assert Balance(calls[..|calls|]) == 0;
      }
    } else {
      assert forall k :: 0 <= k <= |calls| ==> calls[..k] == [];
    }
  }
}
