/** When Shutdown can make a call of OpenThumbnail panic, by closing the channel that the call is about to send on. */
module ThumbnailShutdown {
  import opened ThumbnailNames
  import opened ThumbnailProtocol
  import opened ThumbnailSafety

  /** The call has passed the check of `stopped` and has not sent its task yet. */
  predicate InWindow(c: Caller) {
    c.Checked? || c.Missed? || c.Marked?
  }

  predicate IsDrained(s: State, id: FileID) {
    exists i :: 0 <= i < |s.drained| && s.drained[i].thumb == id
  }

  /** The call can still get to send: a drained id stays in progress for ever, so a call that finds it there joins. */
  predicate Exposed(s: State, c: nat) {
    c < |s.callers| && InWindow(s.callers[c]) && (s.callers[c].Marked? || !IsDrained(s, s.callers[c].task.thumb))
  }

  /** The process is not restarted. */
  predicate OneLife(steps: seq<Step>) {
    forall step :: step in steps ==> !step.Restart?
  }

  /** The process can panic before it ends otherwise. */
  ghost predicate CanPanic(s: State) {
    exists steps, t :: OneLife(steps) && Reaches(s, steps, t) && t.panicked
  }

  // ------------------------------------------------------------------ no call in the window

  ghost predicate Quiet(s: State) {
    s.closed && !s.panicked && Inv(s) && forall c: nat :: !Exposed(s, c)
  }

  lemma DrainedIsInProgress(s: State, id: FileID)
    requires Ownership(s) && IsDrained(s, id)
    ensures id in s.inProgress
    ensures forall w :: 0 <= w < |s.workers| && s.workers[w].HasTask() ==> s.workers[w].task.thumb != id
  {
    assert Owners(s, id) == One(id in s.inProgress);
    var i :| 0 <= i < |s.drained| && s.drained[i].thumb == id;
    CountHas(IsFor(id), s.drained, i);
    forall w | 0 <= w < |s.workers| && s.workers[w].HasTask() && s.workers[w].task.thumb == id ensures false {
      CountHas(Holds(id), s.workers, w);
    }
  }

  lemma CallerKeepsQuiet(s: State, c: nat, a: CallerAction)
    requires Quiet(s) && CallerEnabled(s, c, a)
    ensures !CallerNext(s, c, a).panicked && forall d: nat :: !Exposed(CallerNext(s, c, a), d)
  {
    hide Ownership, OriginalsOk, SpoiledOk, WaitsOk, MarksOk, ReadersOk, ThumbsOk;
    var t := CallerNext(s, c, a);
    assert !Exposed(s, c);
    if InWindow(s.callers[c]) { DrainedIsInProgress(s, s.callers[c].task.thumb); }
    forall d: nat ensures !Exposed(t, d) {
      assert !Exposed(s, d);
      assert t.drained == s.drained;
    }
  }

  lemma OthersKeepQuiet(s: State, t: State)
    requires Quiet(s) && t.callers == s.callers && !t.panicked && |s.drained| <= |t.drained|
    requires forall i :: 0 <= i < |s.drained| ==> t.drained[i] == s.drained[i]
    ensures forall d: nat :: !Exposed(t, d)
  {
    hide Inv;
    forall d: nat ensures !Exposed(t, d) {
      assert !Exposed(s, d);
      if d < |s.callers| && InWindow(s.callers[d]) && !s.callers[d].Marked? {
        var i :| 0 <= i < |s.drained| && s.drained[i].thumb == s.callers[d].task.thumb;
        assert t.drained[i].thumb == s.callers[d].task.thumb;
      }
    }
  }

  lemma QuietKept(s: State, step: Step)
    requires Quiet(s) && Enabled(s, step) && !step.Restart?
    ensures Quiet(Next(s, step))
  {
    hide Inv;
    InvKept(s, step);
    if step.Call? {
      CallerKeepsQuiet(s, step.c, step.ca);
    } else {
      OthersKeepQuiet(s, Next(s, step));
    }
  }

  lemma {:induction false} QuietRuns(s: State, steps: seq<Step>, t: State)
    requires Quiet(s) && OneLife(steps) && Reaches(s, steps, t)
    ensures !t.panicked
    decreases |steps|
  {
    hide Enabled, Next, Inv;
    if |steps| > 0 {
      assert steps[0] in steps;
      QuietKept(s, steps[0]);
      QuietRuns(Next(s, steps[0]), steps[1..], t);
    }
  }

  // ------------------------------------------------------------------ a call in the window

  lemma Prepend(s: State, step: Step)
    requires Enabled(s, step) && !step.Restart? && CanPanic(Next(s, step))
    ensures CanPanic(s)
  {
    hide Enabled, Next;
    var steps, t :| OneLife(steps) && Reaches(Next(s, step), steps, t) && t.panicked;
    var run := [step] + steps;
    assert run[0] == step && run[1..] == steps;
    assert Reaches(s, run, t);
  }

  /** How many steps the worker is away from having removed the id of its task. */
  function Rank(w: Worker): nat {
    match w
    case Idle => 0
    case Exited => 0
    case Finished(_) => 1
    case Opened(_) => 2
    case Locked(_) => 3
    case Downloading(_) => 2
    case _ => 3
  }

  function RankSum(ws: seq<Worker>): nat {
    if |ws| == 0 then 0 else Rank(ws[0]) + RankSum(ws[1..])
  }

  lemma {:induction false} RankSumUpdate(ws: seq<Worker>, w: nat, x: Worker)
    requires w < |ws|
    ensures RankSum(ws[w := x]) + Rank(ws[w]) == RankSum(ws) + Rank(x)
  {
    if w > 0 {
      RankSumUpdate(ws[1..], w - 1, x);
      assert ws[w := x][1..] == ws[1..][w - 1 := x];
    } else {
      assert ws[0 := x][1..] == ws[1..];
    }
  }

  /** A step that brings the worker nearer to the end of its task, whatever the caches and locks are. */
  function Onward(s: State, w: nat): Step
    requires w < |s.workers| && s.workers[w].HasTask()
  {
    match s.workers[w]
    case Taken(_) => Fetch(w, NoPath)
    case Locked(t) => Fetch(w, if Look(s.orig.files, t.file).Absent? then Download else Found)
    case Downloading(_) => Fetch(w, FetchFails)
    case Writing(_) => Fetch(w, WriteFails(true))
    case Written(_) => Fetch(w, ReopenFails)
    case Opened(_) => Output(w, NoOutput)
    case Copying(_) => Output(w, CopyShort)
    case Resizing(_) => Output(w, ResizeFails(true))
    case _ => Loop(w, Unmark)
  }

  /** The worker moves nearer to the end, and nothing else that matters changes. */
  ghost predicate MovesOn(s: State, t: State, w: nat)
    requires w < |s.workers|
  {
    && t.callers == s.callers && t.queue == s.queue && t.drained == s.drained && t.closed == s.closed
    && |t.workers| == |s.workers| && t.workers == s.workers[w := t.workers[w]]
    && Rank(t.workers[w]) < Rank(s.workers[w])
  }

  lemma FetchMovesOn(s: State, w: nat)
    requires w < |s.workers| && s.workers[w].BeforeOutput() && !s.workers[w].Opened?
    ensures Onward(s, w).Fetch? && Enabled(s, Onward(s, w)) && MovesOn(s, Next(s, Onward(s, w)), w)
  {
    hide FetchOrig, CallerEnabled, CallerNext, LoopEnabled, LoopNext, OutputEnabled, OutputNext, EnvEnabled, EnvNext;
  }

  lemma OutputMovesOn(s: State, w: nat)
    requires w < |s.workers| && (s.workers[w].Opened? || s.workers[w].IsWritingOut())
    ensures Onward(s, w).Output? && Enabled(s, Onward(s, w)) && MovesOn(s, Next(s, Onward(s, w)), w)
  {
    hide OutputOut, CallerEnabled, CallerNext, LoopEnabled, LoopNext, FetchEnabled, FetchNext, EnvEnabled, EnvNext;
  }

  lemma LoopMovesOn(s: State, w: nat)
    requires w < |s.workers| && s.workers[w].Finished?
    ensures Onward(s, w) == Loop(w, Unmark) && Enabled(s, Onward(s, w)) && MovesOn(s, Next(s, Onward(s, w)), w)
  {}

  lemma OnwardWorks(s: State, w: nat)
    requires w < |s.workers| && s.workers[w].HasTask()
    ensures Enabled(s, Onward(s, w)) && !Onward(s, w).Restart?
    ensures var t := Next(s, Onward(s, w));
            t.callers == s.callers && t.queue == s.queue && t.drained == s.drained && t.closed == s.closed
            && RankSum(t.workers) < RankSum(s.workers) && |t.workers| == |s.workers|
  {
    hide RankSum, Enabled, Next, Onward, Rank;
    if s.workers[w].Finished? {
      LoopMovesOn(s, w);
    } else if s.workers[w].Opened? || s.workers[w].IsWritingOut() {
      OutputMovesOn(s, w);
    } else {
      FetchMovesOn(s, w);
    }
    RankSumUpdate(s.workers, w, Next(s, Onward(s, w)).workers[w]);
  }

  function Stage(c: Caller): nat {
    if c.Checked? then 2 else if c.Missed? then 1 else 0
  }

  lemma MarkedPanics(s: State, c: nat)
    requires s.closed && c < |s.callers| && s.callers[c].Marked?
    ensures CanPanic(s)
  {
    var step := Call(c, SendOnClosed);
    assert Reaches(Next(s, step), [], Next(s, step));
    Prepend(s, step);
  }

  lemma {:induction false} CountSome<T>(p: T -> bool, s: seq<T>) returns (i: nat)
    requires Count(p, s) > 0
    ensures i < |s| && p(s[i])
  {
    if p(s[0]) {
      i := 0;
    } else {
      i := CountSome(p, s[1..]);
      i := i + 1;
    }
  }

  /** With nothing queued or drained for it, an id in progress belongs to a marked call or to a worker. */
  lemma OwnerOf(s: State, id: FileID) returns (marked: bool, i: nat)
    requires Ownership(s) && id in s.inProgress && s.queue == [] && !IsDrained(s, id)
    ensures marked ==> i < |s.callers| && s.callers[i].Marked?
    ensures !marked ==> i < |s.workers| && s.workers[i].HasTask()
  {
    assert Owners(s, id) == 1;
    CountNone(IsFor(id), s.drained);
    if Count(MarksId(id), s.callers) > 0 {
      marked := true;
      i := CountSome(MarksId(id), s.callers);
    } else {
      marked := false;
      i := CountSome(Holds(id), s.workers);
    }
  }

  /** The next step of a run to the panic, for a call that missed the cache and finds its id in progress. */
  lemma StepTowards(s: State, c: nat) returns (step: Step)
    requires Inv(s) && s.closed && Exposed(s, c) && s.callers[c].Missed? && s.callers[c].task.thumb in s.inProgress
    requires |s.workers| > 0 && forall d :: 0 <= d < |s.callers| ==> !s.callers[d].Marked?
    ensures Enabled(s, step) && !step.Restart?
    ensures var t := Next(s, step);
            t.callers == s.callers && t.closed && |t.workers| == |s.workers| && Exposed(t, c)
            && (|t.queue| < |s.queue| || (t.queue == s.queue && RankSum(t.workers) < RankSum(s.workers)))
  {
    hide OriginalsOk, ThumbsOk, SpoiledOk, WaitsOk, MarksOk, ReadersOk, RankSum, Onward;
    var id := s.callers[c].task.thumb;
    if s.queue == [] {
      var marked, w := OwnerOf(s, id);
      step := Onward(s, w);
      OnwardWorks(s, w);
    } else if s.queue[0].thumb != id {
      step := Env(Drain);
    } else if s.workers[0].Idle? {
      step := Loop(0, Receive);
    } else {
      step := Onward(s, 0);
      OnwardWorks(s, 0);
    }
  }

  lemma {:induction false} ExposedPanics(s: State, c: nat)
    requires Inv(s) && s.closed && |s.workers| > 0 && Exposed(s, c)
    ensures CanPanic(s)
    decreases Stage(s.callers[c]), |s.queue|, RankSum(s.workers)
  {
    hide Inv, CanPanic, RankSum;
    if d :| 0 <= d < |s.callers| && s.callers[d].Marked? {
      MarkedPanics(s, d);
    } else {
      var step;
      if s.callers[c].Checked? {
        step := Call(c, Miss);
      } else if s.callers[c].task.thumb !in s.inProgress {
        step := Call(c, Mark);
      } else {
        step := StepTowards(s, c);
      }
      InvKept(s, step);
      ExposedPanics(Next(s, step), c);
      Prepend(s, step);
    }
  }

  /** In every run, also after restarts: a closed service can still panic if and only if some call is between the
      check of `stopped` and the send of its task, and has marked the task or is for an id that was not drained. */
  lemma PanicsIff(callers: nat, workers: nat, s: State)
    requires Reachable(callers, workers, s) && s.closed && !s.panicked && |s.workers| > 0
    ensures CanPanic(s) <==> exists c: nat :: Exposed(s, c)
  {
    hide Inv;
    ReachableInv(callers, workers, s);
    if c: nat :| Exposed(s, c) {
      ExposedPanics(s, c);
    } else if CanPanic(s) {
      var steps, t :| OneLife(steps) && Reaches(s, steps, t) && t.panicked;
      QuietRuns(s, steps, t);
    }
  }

  lemma {:induction false} ReachesMore(s: State, steps: seq<Step>, t: State, step: Step)
    requires Reaches(s, steps, t) && Enabled(t, step)
    ensures Reaches(s, steps + [step], Next(t, step))
    decreases |steps|
  {
    hide Enabled, Next;
    if |steps| > 0 {
      ReachesMore(Next(s, steps[0]), steps[1..], t, step);
      assert (steps + [step])[1..] == steps[1..] + [step];
    } else {
      assert [step][1..] == [];
      assert Reaches(Next(t, step), [], Next(t, step));
    }
  }

  lemma ReachableMore(callers: nat, workers: nat, s: State, step: Step)
    requires Reachable(callers, workers, s) && Enabled(s, step)
    ensures Reachable(callers, workers, Next(s, step))
  {
    hide Enabled, Next;
    var steps :| Reaches(Init(callers, workers), steps, s);
    ReachesMore(Init(callers, workers), steps, s, step);
  }

  /** Closing the channel is safe if and only if no call is in the window at that moment. */
  lemma CloseIsSafeIff(callers: nat, workers: nat, s: State)
    requires Reachable(callers, workers, s) && s.stopped && !s.closed && !s.panicked && |s.workers| > 0
    ensures !CanPanic(Next(s, Env(Close))) <==> forall c :: 0 <= c < |s.callers| ==> !InWindow(s.callers[c])
  {
    hide Ownership, OriginalsOk, ThumbsOk, SpoiledOk, WaitsOk, MarksOk, ReadersOk;
    var t := Next(s, Env(Close));
    ReachableInv(callers, workers, s);
    ReachableMore(callers, workers, s, Env(Close));
    PanicsIff(callers, workers, t);
    assert forall c: nat :: Exposed(t, c) <==> c < |s.callers| && InWindow(s.callers[c]);
  }

  // ------------------------------------------------------------------ the order of tasks

  /** The tasks that the steps put into the queue, in order. */
  function SentBy(s: State, steps: seq<Step>): seq<Task>
    decreases |steps|
  {
    if steps == [] || !Enabled(s, steps[0]) then []
    else
      (if steps[0].Call? && steps[0].ca.Send? then [s.callers[steps[0].c].task] else [])
      + SentBy(Next(s, steps[0]), steps[1..])
  }

  /** The task that a step hands to a worker, or that shutting down drops. */
  function TakenBy(s: State, step: Step): seq<Task>
    requires Enabled(s, step)
  {
    if step.Loop? && step.la.Receive? then [Next(s, step).workers[step.w].task]
    else if step.Env? && step.ea.Drain? then Next(s, step).drained[|s.drained|..]
    else []
  }

  function TakenByAll(s: State, steps: seq<Step>): seq<Task>
    decreases |steps|
  {
    if steps == [] || !Enabled(s, steps[0]) then []
    else TakenBy(s, steps[0]) + TakenByAll(Next(s, steps[0]), steps[1..])
  }

  lemma CallerInOrder(s: State, c: nat, a: CallerAction)
    requires CallerEnabled(s, c, a)
    ensures CallerNext(s, c, a).queue == s.queue + if a.Send? then [s.callers[c].task] else []
  {
    hide MarkIn;
  }

  lemma LoopInOrder(s: State, w: nat, a: LoopAction)
    requires LoopEnabled(s, w, a)
    ensures var t := LoopNext(s, w, a);
            s.queue == (if a.Receive? then [t.workers[w].task] else []) + t.queue
  {
    if a.Receive? { assert s.queue == [s.queue[0]] + s.queue[1..]; }
  }

  lemma EnvInOrder(s: State, a: EnvAction)
    requires EnvEnabled(s, a)
    ensures var t := EnvNext(s, a);
            s.queue == (if a.Drain? then t.drained[|s.drained|..] else []) + t.queue
  {
    if a.Drain? { assert s.queue == [s.queue[0]] + s.queue[1..]; }
  }

  lemma SentByOne(s: State, step: Step)
    requires Enabled(s, step)
    ensures SentBy(s, [step]) == if step.Call? && step.ca.Send? then [s.callers[step.c].task] else []
  {
    hide Enabled, Next;
    assert [step][1..] == [] && SentBy(Next(s, step), []) == [];
  }

  lemma OneStepInOrder(s: State, step: Step)
    requires Enabled(s, step) && !step.Restart?
    ensures s.queue + SentBy(s, [step]) == TakenBy(s, step) + Next(s, step).queue
    ensures SentBy(s, [step]) == if step.Call? && step.ca.Send? then [s.callers[step.c].task] else []
  {
    SentByOne(s, step);
    hide SentBy, CallerNext, LoopNext, FetchNext, OutputNext, EnvNext;
    hide CallerEnabled, LoopEnabled, FetchEnabled, OutputEnabled, EnvEnabled;
    match step
    case Call(c, a) => CallerInOrder(s, c, a);
    case Loop(w, a) => LoopInOrder(s, w, a);
    case Fetch(w, a) => FetchFrame(s, w, a);
    case Output(w, a) => OutputFrame(s, w, a);
    case Env(a) => EnvInOrder(s, a);
  }

  lemma Rearranged(q: seq<Task>, sent: seq<Task>, later: seq<Task>, taken: seq<Task>, q': seq<Task>)
    requires q + sent == taken + q'
    ensures q + (sent + later) == taken + (q' + later)
  {
    assert q + (sent + later) == (q + sent) + later;
  }

  /** In every run without a restart, from any state: the tasks waiting at first, followed by those sent, are the tasks
      taken, followed by those waiting in the end.  So none is lost, and they are taken in the order
      they were sent in. */
  lemma {:induction false} TasksAreTakenInOrder(s: State, steps: seq<Step>, t: State)
    requires OneLife(steps) && Reaches(s, steps, t)
    ensures s.queue + SentBy(s, steps) == TakenByAll(s, steps) + t.queue
    decreases |steps|
  {
    hide Enabled, Next, TakenBy;
    if steps == [] {
      assert s.queue + [] == [] + t.queue;
    } else {
      var step, n := steps[0], Next(s, steps[0]);
      assert step in steps;
      TasksAreTakenInOrder(n, steps[1..], t);
      OneStepInOrder(s, step);
      SentByOne(s, step);
      Rearranged(s.queue, SentBy(s, [step]), SentBy(n, steps[1..]), TakenBy(s, step), n.queue);
      assert TakenBy(s, step) + (TakenByAll(n, steps[1..]) + t.queue)
          == (TakenBy(s, step) + TakenByAll(n, steps[1..])) + t.queue;
    }
  }
}
