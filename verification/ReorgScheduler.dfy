/** The scheduler of core/tx_pool.go that merges reset and promotion requests and runs one
    reorganisation of the pool at a time. Every receive of its select loop is a step; which
    step comes next is up to the environment. */
module ReorgSchedulers {
  import opened Transactions

  type Header = nat
  type Channel = nat

  datatype ResetRequest = ResetRequest(oldHead: Header, newHead: Header)

  /** A reorganisation as it was launched. `from` and `to` say which of the announced heads
      its reset goes from and to. */
  datatype Run = Run(done: Channel, reset: Option<ResetRequest>, dirty: set<Address>, from: nat, to: nat)

  /** A request that was answered with the channel `done`. A reset request was for the head
      announced as number `index`. */
  datatype Request = PromoteRequest(done: Channel, accounts: set<Address>) | HeadRequest(done: Channel, index: nat)

  /** The run does what was requested: it promotes the accounts (all accounts, if it also
      resets), or it resets to the requested head or to one announced later. */
  ghost predicate Covers(run: Run, r: Request) {
    match r
    case PromoteRequest(_, accounts) => run.reset.Some? || accounts <= run.dirty
    case HeadRequest(_, index) => run.reset.Some? && index <= run.to
  }

  /** The resets of the runs lead from head 0 to head `reached` without a gap. */
  ghost predicate Chained(runs: seq<Run>, heads: seq<Header>, reached: nat) {
    if runs == [] then reached == 0 else
      var init, last := runs[..|runs| - 1], runs[|runs| - 1];
      if last.reset.None? then Chained(init, heads, reached) else
        && last.from < last.to == reached < |heads|
        && last.reset.value == ResetRequest(heads[last.from], heads[last.to])
        && Chained(init, heads, last.from)
  }

  /** All runs but the last have ended, and so has the last unless it is still watched. */
  ghost predicate Serial(runs: seq<Run>, curDone: Option<Channel>, nextDone: Channel, closed: set<Channel>) {
    && (forall i, j :: 0 <= i < j < |runs| ==> runs[i].done < runs[j].done)
    && (forall i :: 0 <= i < |runs| ==> runs[i].done < nextDone && (i < |runs| - 1 ==> runs[i].done in closed))
    && (forall c :: c in closed ==> c == nextDone || exists i :: 0 <= i < |runs| && runs[i].done == c)
    && match curDone
       case None => forall i :: 0 <= i < |runs| ==> runs[i].done in closed
       case Some(c) => runs != [] && runs[|runs| - 1].done == c
  }

  lemma SerialLaunch(runs: seq<Run>, nextDone: Channel, closed: set<Channel>, run: Run)
    requires Serial(runs, None, nextDone, closed) && run.done == nextDone && nextDone !in closed
    ensures Serial(runs + [run], Some(nextDone), nextDone + 1, closed) && nextDone + 1 !in closed
  {
    forall c | c in closed ensures exists i :: 0 <= i < |runs + [run]| && (runs + [run])[i].done == c {
      var i :| 0 <= i < |runs| && runs[i].done == c;
      assert (runs + [run])[i].done == c;
    }
  }

  lemma ChainedLaunch(runs: seq<Run>, heads: seq<Header>, reached: nat, run: Run)
    requires Chained(runs, heads, reached)
    requires run.reset.Some? ==> run.from == reached < run.to < |heads| && run.reset.value == ResetRequest(heads[reached], heads[run.to])
    ensures Chained(runs + [run], heads, if run.reset.Some? then run.to else reached)
  {
    assert (runs + [run])[..|runs|] == runs;
  }

  /** Whether the request was served by one of the runs. */
  ghost predicate Served(runs: seq<Run>, r: Request) {
    exists i :: 0 <= i < |runs| && runs[i].done == r.done && Covers(runs[i], r)
  }

  datatype Event = NewHead(head: Header) | Promote(accounts: set<Address>) | RunEnds | NoticeEnd | Shutdown

  /** The heads announced by the events. */
  function Announced(events: seq<Event>): seq<Header> {
    if events == [] then [] else
      Announced(events[..|events| - 1]) + if events[|events| - 1].NewHead? then [events[|events| - 1].head] else []
  }

  lemma AnnouncedStep(events: seq<Event>, i: nat)
    requires i <= |events|
    ensures Announced(events[..0]) == []
    ensures i < |events| ==> Announced(events[..i + 1]) == Announced(events[..i]) + if events[i].NewHead? then [events[i].head] else []
  {
    if i < |events| {
      assert events[..i + 1][..i] == events[..i];
    }
  }

  class ReorgScheduler {
    var curDone: Option<Channel>
    var nextDone: Channel
    var launchNextRun: bool
    var reset: Option<ResetRequest>
    var dirtyAccounts: Option<set<Address>>
    /** The head the main loop of the pool has seen last. */
    var head: Header
    var closed: set<Channel>
    var stopped: bool

    ghost var heads: seq<Header>
    ghost var reached: nat
    ghost var runs: seq<Run>
    ghost var requests: set<Request>

    /** The next run will serve the request. */
    ghost predicate Waiting(r: Request)
      reads this`nextDone, this`launchNextRun, this`dirtyAccounts, this`reset, this`heads
    {
      && r.done == nextDone && launchNextRun
      && match r
         case PromoteRequest(_, accounts) => dirtyAccounts.Some? && accounts <= dirtyAccounts.value
         case HeadRequest(_, index) => reset.Some? && index < |heads|
    }

    ghost predicate HeadsLinked()
      reads this`heads, this`head, this`reached, this`runs, this`reset
    {
      && 0 < |heads| && head == heads[|heads| - 1] && reached < |heads|
      && Chained(runs, heads, reached)
      && (reset.None? ==> reached == |heads| - 1)
      && (reset.Some? ==> reached < |heads| - 1 && reset.value == ResetRequest(heads[reached], heads[|heads| - 1]))
    }

    ghost predicate OneAtATime()
      reads this`curDone, this`nextDone, this`closed, this`stopped, this`runs
    {
      Serial(runs, curDone, nextDone, closed) && (nextDone in closed <==> stopped)
    }

    ghost predicate Valid()
      reads this
    {
      HeadsLinked() && OneAtATime() && forall r :: r in requests ==> Served(runs, r) || Waiting(r)
    }

    constructor (head: Header)
      ensures Valid() && runs == [] && requests == {} && !stopped
    {
      curDone, nextDone, launchNextRun := None, 0, false;
      reset, dirtyAccounts, closed, stopped := None, None, {}, false;
      this.head := head;
      heads, reached, runs, requests := [head], 0, [], {};
    }

    /** The top of the loop: launches the next run if one is wanted and none is going on. */
    method Launch()
      requires Valid() && !stopped
      modifies this
      ensures Valid() && !stopped && (curDone.None? ==> !launchNextRun)
      ensures requests == old(requests) && closed == old(closed) && heads == old(heads) && head == old(head)
      ensures old(curDone.None? && launchNextRun) ==>
                && old(nextDone) < nextDone && curDone == Some(old(nextDone))
                && runs == old(runs) + [Run(old(nextDone), old(reset), if old(dirtyAccounts).Some? then old(dirtyAccounts).value else {},
                                            old(reached), |heads| - 1)]
                && !launchNextRun
      ensures !old(curDone.None? && launchNextRun) ==>
                runs == old(runs) && curDone == old(curDone) && nextDone == old(nextDone) && launchNextRun == old(launchNextRun)
    {
      hide Served, Serial, Chained;
      if curDone.None? && launchNextRun {
        ghost var run := Run(nextDone, reset, if dirtyAccounts.Some? then dirtyAccounts.value else {}, reached, |heads| - 1);
        ServedByLaunch(run);
        SerialLaunch(runs, nextDone, closed, run);
        ChainedLaunch(runs, heads, reached, run);
        runs, reached := runs + [run], |heads| - 1;
        curDone, nextDone := Some(nextDone), nextDone + 1;
        launchNextRun := false;
        reset, dirtyAccounts := None, None;
      }
    }

    lemma ServedByLaunch(run: Run)
      requires Valid() && run.done == nextDone && run.reset == reset && run.to == |heads| - 1
      requires dirtyAccounts.Some? ==> run.dirty == dirtyAccounts.value
      ensures forall r :: r in requests ==> Served(runs + [run], r)
    {
      hide OneAtATime;
      forall r | r in requests ensures Served(runs + [run], r) {
        if Waiting(r) {
          assert Covers((runs + [run])[|runs|], r);
        } else {
          ServedLater(runs, run, r);
        }
      }
    }

    /** requestReset, called by the main loop for every new head, and its receive. */
    method AnnounceHead(newHead: Header) returns (done: Channel)
      requires Valid() && !stopped
      modifies this
      ensures Valid() && !stopped && done == old(nextDone) && heads == old(heads) + [newHead]
      ensures requests == old(requests) + {HeadRequest(done, |old(heads)|)}
      ensures runs == old(runs) && closed == old(closed)
    {
      hide OneAtATime, Served, Chained;
      var req := ResetRequest(head, newHead);
      ChainedLater(runs, heads, newHead, reached);
      if reset.None? {
        reset := Some(req);
      } else {
        reset := Some(reset.value.(newHead := req.newHead));
      }
      launchNextRun := true;
      done := nextDone;
      head := newHead;
      heads := heads + [newHead];
      requests := requests + {HeadRequest(done, |heads| - 1)};
      WaitingKept();
    }

    /** requestPromoteExecutables and its receive. */
    method RequestPromote(accounts: set<Address>) returns (done: Channel)
      requires Valid() && !stopped
      modifies this
      ensures Valid() && !stopped && done == old(nextDone)
      ensures requests == old(requests) + {PromoteRequest(done, accounts)}
      ensures runs == old(runs) && closed == old(closed) && heads == old(heads)
    {
      hide OneAtATime, Served, HeadsLinked;
      if dirtyAccounts.None? {
        dirtyAccounts := Some(accounts);
      } else {
        dirtyAccounts := Some(dirtyAccounts.value + accounts);
      }
      launchNextRun := true;
      done := nextDone;
      requests := requests + {PromoteRequest(done, accounts)};
      WaitingKept();
    }

    twostate lemma WaitingKept()
      requires old(Valid()) && nextDone == old(nextDone) && launchNextRun && runs == old(runs) && old(heads) <= heads
      requires old(reset).Some? ==> reset.Some?
      requires old(dirtyAccounts).Some? ==> dirtyAccounts.Some? && old(dirtyAccounts).value <= dirtyAccounts.value
      requires forall r :: r in requests ==> r in old(requests) || Waiting(r)
      ensures forall r :: r in requests ==> Served(runs, r) || Waiting(r)
    {
      forall r | r in requests && r in old(requests) ensures Served(runs, r) || Waiting(r) {
        assert Served(runs, r) || old(Waiting(r));
      }
    }

    /** The background run ends and closes its channel. */
    method EndRun()
      requires Valid() && !stopped
      modifies this`closed
      ensures Valid() && !stopped
      ensures closed == old(closed) + if curDone.Some? then {curDone.value} else {}
    {
      hide HeadsLinked, Served, Waiting;
      if curDone.Some? {
        closed := closed + {curDone.value};
      }
    }

    /** The scheduler learns that the run has ended. */
    method NoticeEndOfRun()
      requires Valid() && !stopped
      modifies this`curDone
      ensures Valid() && !stopped
      ensures curDone == if old(curDone).Some? && old(curDone).value in closed then None else old(curDone)
    {
      hide HeadsLinked, Served, Waiting;
      if curDone.Some? && curDone.value in closed {
        curDone := None;
      }
    }

    /** Waits for the current run and releases everybody who is still waiting. */
    method Stop()
      requires Valid() && !stopped
      modifies this`closed, this`stopped, this`curDone
      ensures Valid() && stopped && old(closed) <= closed
      ensures forall i :: 0 <= i < |runs| ==> runs[i].done in closed
    {
      hide HeadsLinked, Served, Waiting;
      if curDone.Some? {
        EndRun();
        NoticeEndOfRun();
      }
      closed := closed + {nextDone};
      stopped := true;
    }

    /** After the last events: if a run has just ended, it is over or none is wanted; if that was
        noticed, no run is going on; if once more a run has ended, none is wanted. */
    ghost predicate Progress(events: seq<Event>)
      reads this`curDone, this`launchNextRun, this`closed
    {
      var n := |events|;
      && (n > 0 && events[n - 1].RunEnds? ==> if curDone.Some? then curDone.value in closed else !launchNextRun)
      && (n > 1 && events[n - 1].NoticeEnd? && events[n - 2].RunEnds? ==> curDone.None?)
      && (n > 2 && events[n - 1].RunEnds? && events[n - 2].NoticeEnd? && events[n - 3].RunEnds? ==> !launchNextRun)
    }

    /** Every event that asks for something has left a request. */
    ghost predicate Recorded(events: seq<Event>)
      reads this`requests, this`heads
    {
      && (forall e :: e in events && e.Promote? ==> exists r :: r in requests && r.PromoteRequest? && r.accounts == e.accounts)
      && (forall e :: e in events && e.NewHead? ==>
            exists r :: r in requests && r.HeadRequest? && r.index < |heads| && heads[r.index] == e.head)
    }

    /** One turn of the loop. */
    method Turn(event: Event, ghost earlier: seq<Event>)
      requires Valid() && !stopped && Progress(earlier) && Recorded(earlier)
      modifies this
      ensures Valid() && (stopped <==> event.Shutdown?)
      ensures old(runs) <= runs && old(requests) <= requests && old(closed) <= closed
      ensures heads == old(heads) + if event.NewHead? then [event.head] else []
      ensures !stopped ==> Progress(earlier + [event]) && Recorded(earlier + [event])
    {
      hide Valid, Recorded, Progress;
      label before:
      ProgressIs(earlier);
      Launch();
      match event {
        case NewHead(newHead) =>
          var done := AnnounceHead(newHead);
          assert HeadRequest(done, |old(heads)|) in requests;
          RecordedMore@before(earlier, event, HeadRequest(done, |old(heads)|));
        case Promote(accounts) =>
          var done := RequestPromote(accounts);
          RecordedMore@before(earlier, event, PromoteRequest(done, accounts));
        case RunEnds =>
          EndRun();
          RecordedStill@before(earlier, event);
        case NoticeEnd =>
          NoticeEndOfRun();
          RecordedStill@before(earlier, event);
        case Shutdown =>
          Stop();
      }
      ProgressIs(earlier + [event]);
    }

    lemma ProgressIs(events: seq<Event>)
      ensures var n := |events|;
        Progress(events) <==>
        && (n > 0 && events[n - 1].RunEnds? ==> if curDone.Some? then curDone.value in closed else !launchNextRun)
        && (n > 1 && events[n - 1].NoticeEnd? && events[n - 2].RunEnds? ==> curDone.None?)
        && (n > 2 && events[n - 1].RunEnds? && events[n - 2].NoticeEnd? && events[n - 3].RunEnds? ==> !launchNextRun)
    {
    }

    twostate lemma RecordedStill(new earlier: seq<Event>, new event: Event)
      requires old(Recorded(earlier)) && old(requests) <= requests && old(heads) <= heads && !event.Promote? && !event.NewHead?
      ensures Recorded(earlier + [event])
    {
      forall e | e in earlier + [event] && e.Promote? ensures exists r :: r in requests && r.PromoteRequest? && r.accounts == e.accounts {
        assert e in earlier;
      }
      forall e | e in earlier + [event] && e.NewHead?
        ensures exists r :: r in requests && r.HeadRequest? && r.index < |heads| && heads[r.index] == e.head
      {
        assert e in earlier;
        var r :| r in old(requests) && r.HeadRequest? && r.index < |old(heads)| && old(heads)[r.index] == e.head;
        assert heads[r.index] == e.head;
      }
    }

    twostate lemma RecordedMore(new earlier: seq<Event>, new event: Event, new request: Request)
      requires old(Recorded(earlier)) && old(requests) <= requests && old(heads) <= heads && request in requests
      requires event.Promote? ==> request.PromoteRequest? && request.accounts == event.accounts
      requires event.NewHead? ==> request.HeadRequest? && request.index < |heads| && heads[request.index] == event.head
      ensures Recorded(earlier + [event])
    {
      forall e | e in earlier + [event] && e.Promote? ensures exists r :: r in requests && r.PromoteRequest? && r.accounts == e.accounts {
        assert e in earlier || e == event;
      }
      forall e | e in earlier + [event] && e.NewHead?
        ensures exists r :: r in requests && r.HeadRequest? && r.index < |heads| && heads[r.index] == e.head
      {
        if e in earlier {
          var r :| r in old(requests) && r.HeadRequest? && r.index < |old(heads)| && old(heads)[r.index] == e.head;
          assert heads[r.index] == e.head;
        }
      }
    }

    /** The scheduler over any sequence of events. Unless it is shut down, every event that asks for
        something leaves a request; and once the run going on has ended, that was noticed, and the
        next run has ended too, every request has been served and every requester released. */
    method Loop(events: seq<Event>)
      requires Valid() && !stopped
      modifies this
      ensures Valid()
      ensures old(heads) <= heads && old(runs) <= runs && old(requests) <= requests && old(closed) <= closed
      ensures stopped <==> Shutdown in events
      ensures !stopped ==> heads == old(heads) + Announced(events) && Recorded(events)
      ensures var n := |events|;
              !stopped && n >= 3 && events[n - 3..] == [RunEnds, NoticeEnd, RunEnds] ==>
                forall r :: r in requests ==> Served(runs, r) && r.done in closed
    {
      hide *;
      var i := 0;
      AnnouncedStep(events, 0);
      ProgressIs(events[..0]);
      NothingRecorded();
      while i < |events| && !stopped
        invariant 0 <= i <= |events| && Valid() && (stopped <==> Shutdown in events[..i])
        invariant !stopped ==> heads == old(heads) + Announced(events[..i]) && Progress(events[..i]) && Recorded(events[..i])
        invariant old(heads) <= heads && old(runs) <= runs && old(requests) <= requests && old(closed) <= closed
      {
        Turn(events[i], events[..i]);
        AnnouncedStep(events, i);
        assert events[..i + 1] == events[..i] + [events[i]];
        i := i + 1;
      }
      assert i == |events| ==> events[..i] == events;
      if !stopped {
        ProgressIs(events);
        if |events| >= 3 && events[|events| - 3..] == [RunEnds, NoticeEnd, RunEnds] {
          ghost var last := events[|events| - 3..];
          assert last[0].RunEnds? && last[1].NoticeEnd? && last[2].RunEnds?;
          AllReleased();
        }
      }
    }

    lemma NothingRecorded()
      ensures Recorded([])
    {
    }

    lemma AllReleased()
      requires Valid() && !stopped && !launchNextRun && (curDone.Some? ==> curDone.value in closed)
      ensures forall r :: r in requests ==> Served(runs, r) && r.done in closed
    {
      forall r | r in requests ensures Served(runs, r) && r.done in closed {
        assert Served(runs, r) || Waiting(r);
      }
    }

    /** A requester is released only after a run that did what it asked for has ended. */
    lemma ReleasedWhenServed(r: Request)
      requires Valid() && !stopped && r in requests && r.done in closed
      ensures exists i :: 0 <= i < |runs| && runs[i].done == r.done && runs[i].done in closed
                          && match r
                             case PromoteRequest(_, accounts) => runs[i].reset.Some? || forall a :: a in accounts ==> a in runs[i].dirty
                             case HeadRequest(_, index) => runs[i].reset.Some? && index <= runs[i].to
    {
      assert Served(runs, r) || Waiting(r);
    }

    /** At most one run is going on. */
    lemma AtMostOneRun(i: nat, j: nat)
      requires Valid() && i < |runs| && j < |runs|
      requires runs[i].done !in closed && runs[j].done !in closed
      ensures i == j && curDone == Some(runs[i].done)
    {
    }

    /** No request is forgotten: what is not served yet makes the scheduler launch a run. */
    lemma NothingForgotten(r: Request)
      requires Valid() && r in requests
      ensures Served(runs, r) || (launchNextRun && r.done == nextDone)
    {
    }

    /** Resets follow each other without a gap. */
    lemma ResetsFollow(i: nat, j: nat)
      requires Valid() && i < j < |runs| && runs[i].reset.Some? && runs[j].reset.Some?
      requires forall k :: i < k < j ==> runs[k].reset.None?
      ensures runs[j].reset.value.oldHead == runs[i].reset.value.newHead && runs[j].from == runs[i].to
    {
      ChainedAt(runs, heads, reached, j);
      var before := ChainedUpTo(runs, heads, reached, j);
      ChainedBack(runs[..j], heads, before, i);
      assert runs[..j][i] == runs[i];
    }
  }

  lemma ServedLater(runs: seq<Run>, run: Run, r: Request)
    requires Served(runs, r)
    ensures Served(runs + [run], r)
  {
    var i :| 0 <= i < |runs| && runs[i].done == r.done && Covers(runs[i], r);
    assert (runs + [run])[i] == runs[i];
  }

  lemma {:induction false} ChainedLater(runs: seq<Run>, heads: seq<Header>, head: Header, reached: nat)
    requires Chained(runs, heads, reached)
    ensures Chained(runs, heads + [head], reached)
    decreases |runs|
  {
    if runs != [] {
      var init, last := runs[..|runs| - 1], runs[|runs| - 1];
      ChainedLater(init, heads, head, if last.reset.None? then reached else last.from);
    }
  }

  /** The head reached before run `j`, which is where the reset of run `j` starts. */
  lemma {:induction false} ChainedUpTo(runs: seq<Run>, heads: seq<Header>, reached: nat, j: nat) returns (before: nat)
    requires Chained(runs, heads, reached) && j < |runs| && runs[j].reset.Some?
    ensures before == runs[j].from && Chained(runs[..j], heads, before)
    decreases |runs|
  {
    var init, last := runs[..|runs| - 1], runs[|runs| - 1];
    if j == |runs| - 1 {
      before := last.from;
    } else {
      before := ChainedUpTo(init, heads, if last.reset.None? then reached else last.from, j);
      assert init[..j] == runs[..j];
    }
  }

  lemma {:induction false} ChainedAt(runs: seq<Run>, heads: seq<Header>, reached: nat, j: nat)
    requires Chained(runs, heads, reached) && j < |runs| && runs[j].reset.Some?
    ensures runs[j].from < runs[j].to < |heads|
    ensures runs[j].reset.value == ResetRequest(heads[runs[j].from], heads[runs[j].to])
    decreases |runs|
  {
    if j < |runs| - 1 {
      var init, last := runs[..|runs| - 1], runs[|runs| - 1];
      ChainedAt(init, heads, if last.reset.None? then reached else last.from, j);
    }
  }

  /** Runs without a reset do not change the head reached. */
  lemma {:induction false} ChainedBack(runs: seq<Run>, heads: seq<Header>, reached: nat, i: nat)
    requires Chained(runs, heads, reached) && i < |runs| && runs[i].reset.Some?
    requires forall k :: i < k < |runs| ==> runs[k].reset.None?
    ensures runs[i].to == reached < |heads| && runs[i].reset.value.newHead == heads[reached]
    decreases |runs|
  {
    if i < |runs| - 1 {
      ChainedBack(runs[..|runs| - 1], heads, reached, i);
    }
  }
}
