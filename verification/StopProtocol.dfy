/** Stopping the sun thread: a flag and a pipe, set under the mutex, against the thread's loop. */
module StopProtocol {

  /** What the mutex protects: ArretThread, and the pipe with the stop messages nobody has read. */
  datatype Shared = Shared(arretThread: int, open: bool, unread: nat)

  /** SetArretThread. */
  function Set(s: Shared, demArret: int): Shared
  {
    Shared(demArret, s.open, if demArret != 0 && s.open then s.unread + 1 else s.unread)
  }

  /** cGetArretThread. */
  function Get(s: Shared): int
  {
    s.arretThread
  }

  class CThread {
    var ArretThread: int
    var iIdPipe: bool       // are the pipe's descriptors open?
    var unread: nat

    constructor ()
      ensures Abs() == Shared(0, false, 0)
    {
      ArretThread, iIdPipe, unread := 0, false, 0;
    }

    function Abs(): Shared
      reads this
    {
      Shared(ArretThread, iIdPipe, unread)
    }

    method SetArretThread(demArret: int)
      modifies this
      ensures Abs() == Set(old(Abs()), demArret)
    {
      ArretThread := demArret;
      if demArret != 0 && iIdPipe {
        unread := unread + 1;
      }
    }

    method GetArretThread() returns (cRet: int)
      ensures cRet == Get(Abs())
    {
      cRet := ArretThread;
    }
  }

  /**
   * Where the thread is: not created; in FctThread before its reset; at the
   * loop's test; in select; after a timeout, before the second test; about to
   * call iGererCourbe; out of the loop, before the completion mark; finished.
   */
  datatype Place = NotCreated | Reset | Test | Select | TimedOut | Manage | Leave | Finished

  datatype State = State(shared: Shared, place: Place)

  datatype Step =
    | OpenPipe          // Create, successful pipe()
    | StartThread       // Create, pthread_create()
    | Request           // anyone: SetArretThread(1)
    | ThreadRuns        // the thread's next step; a select with nothing to read times out
    | Interrupted       // select returns EINTR
    | SelectFails       // select returns another error

  predicate Enabled(s: State, step: Step)
  {
    match step
    case OpenPipe => !s.shared.open && s.place == NotCreated
    case StartThread => s.shared.open && s.place == NotCreated
    case Request => true
    case ThreadRuns => s.place != NotCreated && s.place != Finished
    case Interrupted => s.place == Select
    case SelectFails => s.place == Select
  }

  function Next(s: State, step: Step): State
  {
    match step
    case OpenPipe => s.(shared := s.shared.(open := true))
    case StartThread => s.(place := Reset)
    case Request => s.(shared := Set(s.shared, 1))
    case ThreadRuns => ThreadStep(s)
    case Interrupted => s.(place := Test)
    case SelectFails => s.(place := Leave)
  }

  /** FctThread and the loop of CSoleil::Thread, one atomic step at a time. */
  function ThreadStep(s: State): State
  {
    match s.place
    case Reset => State(Set(s.shared, 0), Test)
    case Test => s.(place := if Get(s.shared) == 0 then Select else Leave)
    case Select => s.(place := if s.shared.unread > 0 then Leave else TimedOut)
    case TimedOut => s.(place := if Get(s.shared) == 0 then Manage else Test)
    case Manage => s.(place := Test)
    case Leave => State(Set(s.shared, 2), Finished)
    case _ => s
  }

  ghost predicate IsRun(s: State, steps: seq<Step>)
    decreases |steps|
  {
    steps == [] || (Enabled(s, steps[0]) && IsRun(Next(s, steps[0]), steps[1..]))
  }

  function Run(s: State, steps: seq<Step>): State
    decreases |steps|
  {
    if steps == [] then s else Run(Next(s, steps[0]), steps[1..])
  }

  const CREATED := State(Shared(0, false, 0), NotCreated)

  /** The thread exists only once its pipe does, and nothing is in a pipe that is not open. */
  predicate Reachable(s: State)
  {
    && (s.place != NotCreated ==> s.shared.open)
    && (!s.shared.open ==> s.shared.unread == 0)
  }

  lemma NextReachable(s: State, step: Step)
    requires Reachable(s) && Enabled(s, step)
    ensures Reachable(Next(s, step))
  {
  }

  lemma {:induction false} EveryRunReachable(s: State, steps: seq<Step>)
    requires Reachable(s) && IsRun(s, steps)
    ensures Reachable(Run(s, steps))
    decreases |steps|
  {
    if steps != [] {
      NextReachable(s, steps[0]);
      EveryRunReachable(Next(s, steps[0]), steps[1..]);
    }
  }

  // ----- A request is seen -----

  predicate Pending(s: State)
  {
    s.shared.arretThread != 0 || s.shared.unread > 0
  }

  ghost predicate PendingForEver(s: State)
  {
    forall steps | IsRun(s, steps) :: Pending(Run(s, steps))
  }

  /** After a request through an open pipe: a message is unread, and past the reset the flag is up. */
  predicate Requested(s: State)
  {
    && s.shared.open && s.shared.unread > 0
    && (s.place == TimedOut ==> s.shared.arretThread != 0)
  }

  lemma RequestEstablishes(s: State)
    requires s.shared.open
    ensures Requested(Next(s, Request)) && Next(s, Request).shared.unread == s.shared.unread + 1
  {
  }

  lemma NextRequested(s: State, step: Step)
    requires Requested(s) && Enabled(s, step)
    ensures Requested(Next(s, step))
    ensures Next(s, step).place == Manage ==> step == Request && s.place == Manage
  {
  }

  lemma {:induction false} StaysRequested(s: State, steps: seq<Step>)
    requires Requested(s) && IsRun(s, steps)
    ensures Requested(Run(s, steps)) && Pending(Run(s, steps))
    decreases |steps|
  {
    if steps != [] {
      NextRequested(s, steps[0]);
      StaysRequested(Next(s, steps[0]), steps[1..]);
    }
  }

  /**
   * A request is pending for ever after, whatever happens next, exactly if the
   * pipe was open when it was made.
   */
  lemma RequestSticksIff(s: State)
    requires Reachable(s)
    ensures s.shared.open <==> PendingForEver(Next(s, Request))
  {
    var s' := Next(s, Request);
    if s.shared.open {
      forall steps | IsRun(s', steps)
        ensures Pending(Run(s', steps))
      {
        StaysRequested(s', steps);
      }
    } else {
      var steps := [OpenPipe, StartThread, ThreadRuns];
      var s1 := Next(s', OpenPipe);
      var s2 := Next(s1, StartThread);
      var s3 := Next(s2, ThreadRuns);
      assert steps[1..] == [StartThread, ThreadRuns] && steps[1..][1..] == [ThreadRuns] && [ThreadRuns][1..] == [];
      assert Run(s2, [ThreadRuns]) == s3 && IsRun(s2, [ThreadRuns]);
      assert Run(s1, [StartThread, ThreadRuns]) == s3 && IsRun(s1, [StartThread, ThreadRuns]);
      assert Run(s', steps) == s3 && IsRun(s', steps);
      assert !Pending(s3);
    }
  }

  /** How often iGererCourbe is called on a test made during the run. */
  function CallsDecided(s: State, steps: seq<Step>): nat
    decreases |steps|
  {
    if steps == [] then 0
    else
      (if s.place == TimedOut && Next(s, steps[0]).place == Manage then 1 else 0)
      + CallsDecided(Next(s, steps[0]), steps[1..])
  }

  /** After a request no test decides for another call of iGererCourbe. */
  lemma {:induction false} NoCallAfterRequest(s: State, steps: seq<Step>)
    requires Requested(s) && IsRun(s, steps)
    ensures CallsDecided(s, steps) == 0
    decreases |steps|
  {
    if steps != [] {
      NextRequested(s, steps[0]);
      NoCallAfterRequest(Next(s, steps[0]), steps[1..]);
    }
  }

  // ----- A request is obeyed -----

  function Distance(p: Place): nat
  {
    match p
    case NotCreated => 5
    case Reset => 4
    case TimedOut => 4
    case Manage => 4
    case Test => 3
    case Select => 2
    case Leave => 1
    case Finished => 0
  }

  function Count(steps: seq<Step>, kind: set<Step>): nat
    decreases |steps|
  {
    if steps == [] then 0 else (if steps[0] in kind then 1 else 0) + Count(steps[1..], kind)
  }

  /**
   * After a request the thread has at most four steps left to its end, plus
   * one for each select that a signal interrupts.
   */
  lemma {:induction false} EndsSoon(s: State, steps: seq<Step>)
    requires Requested(s) && IsRun(s, steps)
    ensures Count(steps, {StartThread, ThreadRuns, SelectFails}) + Distance(Run(s, steps).place)
         <= Distance(s.place) + Count(steps, {Interrupted})
    decreases |steps|
  {
    if steps != [] {
      NextRequested(s, steps[0]);
      EndsSoon(Next(s, steps[0]), steps[1..]);
    }
  }

  // ----- Without a request -----

  /** Nobody has asked the thread to stop, and it is in its loop. */
  predicate Going(s: State)
  {
    s.shared.arretThread == 0 && s.shared.unread == 0 && s.place in {Test, Select, TimedOut, Manage}
  }

  /** No request is made and no select fails. */
  predicate Undisturbed(steps: seq<Step>)
  {
    forall i | 0 <= i < |steps| :: steps[i] != Request && steps[i] != SelectFails
  }

  /** How often select times out, and how often iGererCourbe is called. */
  function Timeouts(s: State, steps: seq<Step>): nat
    decreases |steps|
  {
    if steps == [] then 0
    else (if s.place == Select && steps[0] == ThreadRuns then 1 else 0) + Timeouts(Next(s, steps[0]), steps[1..])
  }

  function CallsMade(s: State, steps: seq<Step>): nat
    decreases |steps|
  {
    if steps == [] then 0
    else (if s.place == Manage && steps[0] == ThreadRuns then 1 else 0) + CallsMade(Next(s, steps[0]), steps[1..])
  }

  /** A timeout has come and its call has not been made yet. */
  function Owed(s: State): nat
  {
    if s.place in {TimedOut, Manage} then 1 else 0
  }

  lemma NextGoing(s: State, step: Step)
    requires Going(s) && Enabled(s, step) && step != Request && step != SelectFails
    ensures Going(Next(s, step)) && step in {ThreadRuns, Interrupted}
    ensures Owed(s) + (if s.place == Select && step == ThreadRuns then 1 else 0)
         == Owed(Next(s, step)) + (if s.place == Manage && step == ThreadRuns then 1 else 0)
  {
  }

  /**
   * As long as nobody asks it to stop and select does not fail, the thread stays
   * in its loop, whatever signals interrupt it, and each timeout is followed by
   * one call of iGererCourbe before the next one.
   */
  lemma {:induction false} EveryTimeoutCalls(s: State, steps: seq<Step>)
    requires Going(s) && IsRun(s, steps) && Undisturbed(steps)
    ensures Going(Run(s, steps))
    ensures Owed(s) + Timeouts(s, steps) == CallsMade(s, steps) + Owed(Run(s, steps))
    decreases |steps|
  {
    if steps != [] {
      NextGoing(s, steps[0]);
      EveryTimeoutCalls(Next(s, steps[0]), steps[1..]);
    }
  }

  /** And it comes round: four steps of its own from any place in the loop make one call. */
  lemma ComesRound(s: State)
    requires Going(s)
    ensures
      var s1 := Next(s, ThreadRuns);
      var s2 := Next(s1, ThreadRuns);
      var s3 := Next(s2, ThreadRuns);
      Next(s3, ThreadRuns) == s && Manage in {s.place, s1.place, s2.place, s3.place}
  {
  }

  // ----- The completion mark -----

  predicate Marked(s: State)
  {
    s.place == Finished ==> s.shared.arretThread != 0
  }

  lemma NextMarked(s: State, step: Step)
    requires Marked(s) && Enabled(s, step)
    ensures Marked(Next(s, step)) && (s.place == Leave && step == ThreadRuns ==> Next(s, step).shared.arretThread == 2)
  {
  }

  /** Once the thread has finished, its flag is up for good. */
  lemma {:induction false} FinishedIsMarked(s: State, steps: seq<Step>)
    requires Marked(s) && IsRun(s, steps)
    ensures Marked(Run(s, steps))
    decreases |steps|
  {
    if steps != [] {
      NextMarked(s, steps[0]);
      FinishedIsMarked(Next(s, steps[0]), steps[1..]);
    }
  }
}
