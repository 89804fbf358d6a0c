/** Concrete runs of the thumbnail protocol, on which promises one might expect of it fail. */
module ThumbnailRuns {
  import opened ThumbnailNames
  import opened ThumbnailProtocol
  import opened ThumbnailSafety
  import opened ThumbnailShutdown

  lemma GoCall(s: State, c: nat, a: CallerAction) returns (t: State)
    requires Reachable(2, 1, s) && CallerEnabled(s, c, a)
    ensures t == CallerNext(s, c, a) && Reachable(2, 1, t)
  {
    ReachableMore(2, 1, s, Call(c, a));
    t := Next(s, Call(c, a));
  }

  lemma GoLoop(s: State, a: LoopAction) returns (t: State)
    requires Reachable(2, 1, s) && LoopEnabled(s, 0, a)
    ensures t == LoopNext(s, 0, a) && Reachable(2, 1, t)
  {
    ReachableMore(2, 1, s, Loop(0, a));
    t := Next(s, Loop(0, a));
  }

  lemma GoFetch(s: State, a: FetchAction) returns (t: State)
    requires Reachable(2, 1, s) && FetchEnabled(s, 0, a)
    ensures t == FetchNext(s, 0, a) && Reachable(2, 1, t)
  {
    ReachableMore(2, 1, s, Fetch(0, a));
    t := Next(s, Fetch(0, a));
  }

  lemma GoOutput(s: State, a: OutputAction) returns (t: State)
    requires Reachable(2, 1, s) && OutputEnabled(s, 0, a)
    ensures t == OutputNext(s, 0, a) && Reachable(2, 1, t)
  {
    ReachableMore(2, 1, s, Output(0, a));
    t := Next(s, Output(0, a));
  }

  lemma GoEnv(s: State, a: EnvAction) returns (t: State)
    requires Reachable(2, 1, s) && EnvEnabled(s, a)
    ensures t == EnvNext(s, a) && Reachable(2, 1, t)
  {
    ReachableMore(2, 1, s, Env(a));
    t := Next(s, Env(a));
  }

  /** Two calls for the same thumbnail have missed the cache; one of them has marked the task. */
  lemma TwoMisses(t: Task) returns (s: State)
    ensures Reachable(2, 1, s)
    ensures s.callers == [Marked(t, 0), Missed(t, true)] && s.workers == [Idle] && s.queue == []
    ensures s.inProgress == {t.thumb} && !s.closed && !s.stopped
    ensures s.orig == Init(2, 1).orig && s.out == MarkIn(Init(2, 1).out, t, true)
  {
    s := Init(2, 1);
    assert s.callers == [Outside, Outside];
    assert Reaches(s, [], s);
    s := GoCall(s, 0, Start(t));
    s := GoCall(s, 1, Start(t));
    s := GoCall(s, 0, Miss);
    s := GoCall(s, 1, Miss);
    s := GoCall(s, 0, Mark);
  }

  /** The worker has the task, and downloads the original. */
  lemma TaskTaken(t: Task) returns (s: State)
    ensures Reachable(2, 1, s)
    ensures s.callers == [Polling(t, 0), Missed(t, true)] && s.workers == [Downloading(t)] && s.queue == []
    ensures s.inProgress == {t.thumb} && !s.closed && !s.stopped && s.orig.misread == {}
    ensures s.out == MarkIn(Init(2, 1).out, t, true)
  {
    hide MarkIn, Reachable;
    s := TwoMisses(t);
    s := GoCall(s, 0, Send);
    s := GoLoop(s, Receive);
    s := GoFetch(s, LockImage);
    s := GoFetch(s, Download);
  }

  /** The worker writes the original into the cache. */
  lemma TaskWriting(t: Task) returns (s: State)
    ensures Reachable(2, 1, s)
    ensures s.callers == [Polling(t, 0), Missed(t, true)] && s.workers == [Writing(t)] && s.queue == []
    ensures s.inProgress == {t.thumb} && !s.closed && !s.stopped && s.orig.misread == {}
    ensures Look(s.orig.files, t.file) == Partial
    ensures s.out == MarkIn(Init(2, 1).out, t, true)
  {
    hide MarkIn, Reachable, Init;
    s := TaskTaken(t);
    s := GoFetch(s, Create({}));
  }

  /** The worker has read the original into the cache and opened it. */
  lemma TaskOpened(t: Task) returns (s: State)
    ensures Reachable(2, 1, s)
    ensures s.callers == [Polling(t, 0), Missed(t, true)] && s.workers == [Opened(t)] && s.queue == []
    ensures s.inProgress == {t.thumb} && !s.closed && !s.stopped && s.orig.misread == {}
    ensures t.file !in s.orig.locks && Look(s.orig.files, t.file) == Whole(t.file)
    ensures s.out == MarkIn(Init(2, 1).out, t, true)
  {
    hide MarkIn, Reachable, Init;
    s := TaskWriting(t);
    s := GoFetch(s, WriteOk({}));
    assert Look(s.orig.files, t.file) == Whole(t.file);
    s := GoFetch(s, Reopened);
  }

  /** The worker has made the thumbnail and removed its id; one call waits for it, the other has missed the cache. */
  lemma FirstGenerated(t: Task) returns (s: State)
    requires !t.useOriginal
    ensures Reachable(2, 1, s) && s.callers == [Polling(t, 0), Missed(t, true)] && s.workers == [Idle] && s.queue == []
    ensures s.inProgress == {} && !s.closed && At(s.out.marks, t.thumb) == 1
    ensures Look(s.out.files, t.thumb) == Whole(t.file)
    ensures t.file !in s.orig.locks && Look(s.orig.files, t.file) == Whole(t.file)
    ensures At(s.out.evictions, t.thumb) == 0 && At(s.out.failures, t.thumb) == 0
  {
    s := TaskOpened(t);
    s := GoOutput(s, StartResize({}));
    s := GoOutput(s, ResizeOk(false));
    s := GoLoop(s, Unmark);
  }

  /** A second call can generate the thumbnail again although nothing was evicted and nothing failed. */
  lemma SecondCallGenerates(t: Task) returns (s: State)
    requires !t.useOriginal
    ensures Reachable(2, 1, s) && At(s.out.marks, t.thumb) == 2
    ensures At(s.out.evictions, t.thumb) == 0 && At(s.out.failures, t.thumb) == 0
  {
    s := FirstGenerated(t);
    s := GoCall(s, 1, Mark);
  }

  /** A call can be handed a thumbnail that is still being written. */
  lemma EarlyOpenSeesPartial(t: Task) returns (s: State)
    requires !t.useOriginal
    ensures Reachable(2, 1, s) && s.callers == [Polling(t, 0), Returned(t, Partial)]
  {
    hide Reachable;
    s := TaskOpened(t);
    s := GoOutput(s, StartResize({}));
    assert Look(s.out.files, t.thumb) == Partial;
    s := GoCall(s, 1, Join);
    s := GoCall(s, 1, Cancel);
    s := GoCall(s, 1, Again);
    s := GoCall(s, 1, Start(t));
    s := GoCall(s, 1, Hit);
  }

  /** A short copy of an original stays in the cache after its task has ended, with no removal having failed. */
  lemma ShortCopyStays(t: Task) returns (s: State)
    requires t.useOriginal
    ensures Reachable(2, 1, s) && s.inProgress == {} && s.out.stuck == {} && Look(s.out.files, t.thumb) == Partial
  {
    s := TaskOpened(t);
    s := GoOutput(s, CreateCopy({}));
    s := GoOutput(s, CopyShort);
    s := GoLoop(s, Unmark);
  }

  /** Shutdown can make a call of OpenThumbnail panic. */
  lemma ShutdownPanics(t: Task) returns (s: State)
    ensures Reachable(2, 1, s) && s.panicked
  {
    s := TwoMisses(t);
    s := GoEnv(s, Stop);
    s := GoEnv(s, Close);
    s := GoCall(s, 0, SendOnClosed);
  }

  /** An original whose writing failed, and then its removal too, stays in the cache, broken, when the section is
      left. */
  lemma BrokenOriginalStays(t: Task) returns (s: State)
    ensures Reachable(2, 1, s) && t.file !in s.orig.locks && Look(s.orig.files, t.file) == Partial
    ensures s.callers == [Polling(t, 0), Missed(t, true)] && s.workers == [Finished(t)] && s.queue == []
    ensures s.inProgress == {t.thumb} && !s.closed && !s.stopped
    ensures Look(s.out.files, t.thumb) == Absent
  {
    hide MarkIn, Reachable, Init;
    s := TaskWriting(t);
    MarkedOnly(t);
    s := GoFetch(s, WriteFails(false));
  }

  lemma MarkedOnly(t: Task)
    ensures Look(MarkIn(Init(2, 1).out, t, true).files, t.thumb) == Absent
  {}

  lemma BrokenOriginalQueued(t: Task) returns (s: State)
    ensures Reachable(2, 1, s) && t.file !in s.orig.locks && Look(s.orig.files, t.file) == Partial
    ensures s.workers == [Taken(t)] && s.inProgress == {t.thumb}
  {
    hide MarkIn, Reachable, Init;
    s := BrokenOriginalStays(t);
    s := GoLoop(s, Unmark);
    s := GoCall(s, 1, Mark);
    s := GoCall(s, 1, Send);
    s := GoLoop(s, Receive);
  }

  /** A later task finds it there, and makes a thumbnail of a RAW image from it without an error. */
  lemma BrokenOriginalIsUsed(t: Task) returns (s: State)
    requires t.raw && !t.useOriginal
    ensures Reachable(2, 1, s) && s.inProgress == {} && Look(s.out.files, t.thumb) == Spoiled(t.file)
  {
    hide Reachable;
    s := BrokenOriginalQueued(t);
    s := GoFetch(s, LockImage);
    s := GoFetch(s, Found);
    s := GoOutput(s, StartResize({}));
    assert Look(s.out.files, t.thumb) == Partial;
    s := GoOutput(s, ResizeOk(false));
    s := GoLoop(s, Unmark);
  }

  /** A call has been given the whole thumbnail, and another one, which had looked into the cache before, generates it
      again. */
  lemma SecondTaskQueued(t: Task) returns (s: State)
    requires !t.useOriginal
    ensures Reachable(2, 1, s) && s.workers == [Taken(t)] && |s.callers| == 2
    ensures s.callers[0] == Returned(t, Whole(t.file)) && Look(s.out.files, t.thumb) == Whole(t.file)
    ensures t.file !in s.orig.locks && Look(s.orig.files, t.file) == Whole(t.file)
    ensures At(s.out.evictions, t.thumb) == 0 && At(s.out.failures, t.thumb) == 0
  {
    hide Reachable;
    s := FirstGenerated(t);
    s := GoCall(s, 0, Leave);
    s := GoCall(s, 0, Reopen);
    s := GoCall(s, 1, Mark);
    s := GoCall(s, 1, Send);
    s := GoLoop(s, Receive);
  }

  /** So the file is truncated under the first call, although nothing was evicted and nothing failed. */
  lemma ReaderIsTruncated(t: Task) returns (s: State)
    requires !t.useOriginal
    ensures Reachable(2, 1, s) && |s.callers| == 2 && s.callers[0] == Returned(t, Whole(t.file)) && 0 in s.torn
    ensures At(s.out.evictions, t.thumb) == 0 && At(s.out.failures, t.thumb) == 0
  {
    hide Reachable;
    s := SecondTaskQueued(t);
    s := GoFetch(s, LockImage);
    s := GoFetch(s, Found);
    s := GoOutput(s, StartResize({0}));
  }
}
