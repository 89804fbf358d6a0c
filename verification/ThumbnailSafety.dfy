/** What every run of the thumbnail protocol keeps: who owns a task, the state of both caches, and what waiting callers
    may rely on. */
module ThumbnailSafety {
  import opened ThumbnailNames
  import opened ThumbnailProtocol

  // ------------------------------------------------------------------ who owns an id in progress

  function Count<T>(p: T -> bool, s: seq<T>): nat {
    if |s| == 0 then 0 else (if p(s[0]) then 1 else 0) + Count(p, s[1..])
  }

  function One(b: bool): nat {
    if b then 1 else 0
  }

  lemma {:induction false} CountUpdate<T>(p: T -> bool, s: seq<T>, i: nat, x: T)
    requires i < |s|
    ensures Count(p, s[i := x]) + One(p(s[i])) == Count(p, s) + One(p(x))
  {
    if i > 0 {
      CountUpdate(p, s[1..], i - 1, x);
      assert s[i := x][1..] == s[1..][i - 1 := x];
    } else {
      assert s[0 := x][1..] == s[1..];
    }
  }

  lemma {:induction false} CountAppend<T>(p: T -> bool, s: seq<T>, x: T)
    ensures Count(p, s + [x]) == Count(p, s) + One(p(x))
  {
    if |s| == 0 {
      assert [x][1..] == [];
    } else {
      CountAppend(p, s[1..], x);
      assert (s + [x])[1..] == s[1..] + [x];
    }
  }

  lemma {:induction false} CountHas<T>(p: T -> bool, s: seq<T>, i: nat)
    requires i < |s| && p(s[i])
    ensures Count(p, s) >= 1
  {
    if i > 0 { CountHas(p, s[1..], i - 1); }
  }

  lemma {:induction false} CountHasBoth<T>(p: T -> bool, s: seq<T>, i: nat, j: nat)
    requires i < j < |s| && p(s[i]) && p(s[j])
    ensures Count(p, s) >= 2
  {
    if i > 0 { CountHasBoth(p, s[1..], i - 1, j - 1); } else { CountHas(p, s[1..], j - 1); }
  }

  lemma {:induction false} CountNone<T>(p: T -> bool, s: seq<T>)
    requires forall i :: 0 <= i < |s| ==> !p(s[i])
    ensures Count(p, s) == 0
  {
    if |s| > 0 { CountNone(p, s[1..]); }
  }

  function MarksId(id: FileID): Caller -> bool {
    (c: Caller) => c.Marked? && c.task.thumb == id
  }

  function IsFor(id: FileID): Task -> bool {
    (t: Task) => t.thumb == id
  }

  function Holds(id: FileID): Worker -> bool {
    (w: Worker) => w.HasTask() && w.task.thumb == id
  }

  /** How many calls have marked the id and not sent it yet, plus how often it is in the queue, held by a worker, or
      among the tasks drained at shutdown. */
  function Owners(s: State, id: FileID): nat {
    Count(MarksId(id), s.callers) + Count(IsFor(id), s.queue) + Count(Holds(id), s.workers)
      + Count(IsFor(id), s.drained)
  }

  /** The set of tasks in progress is the disjoint union of these four. */
  ghost predicate Ownership(s: State) {
    forall id :: Owners(s, id) == One(id in s.inProgress)
  }

  lemma CallerKeepsOwnership(s: State, c: nat, a: CallerAction)
    requires Ownership(s) && CallerEnabled(s, c, a)
    ensures Ownership(CallerNext(s, c, a))
  {
    hide MarkIn, Count;
    var t := CallerNext(s, c, a);
    forall id ensures Owners(t, id) == One(id in t.inProgress) {
      assert Owners(s, id) == One(id in s.inProgress);
      CountUpdate(MarksId(id), s.callers, c, t.callers[c]);
      if a.SendOnClosed? { assert t.callers == s.callers; }
      if a.Send? { CountAppend(IsFor(id), s.queue, s.callers[c].task); }
    }
  }

  lemma {:induction false} CountFirst<T>(p: T -> bool, s: seq<T>)
    requires |s| > 0
    ensures Count(p, s) == One(p(s[0])) + Count(p, s[1..])
  {}

  lemma LoopKeepsOwnership(s: State, w: nat, a: LoopAction)
    requires Ownership(s) && LoopEnabled(s, w, a)
    ensures Ownership(LoopNext(s, w, a))
  {
    hide Count;
    var t := LoopNext(s, w, a);
    forall id ensures Owners(t, id) == One(id in t.inProgress) {
      assert Owners(s, id) == One(id in s.inProgress);
      CountUpdate(Holds(id), s.workers, w, t.workers[w]);
      if a.Receive? { CountFirst(IsFor(id), s.queue); }
      if a.Unmark? && id == s.workers[w].task.thumb { CountHas(Holds(id), s.workers, w); }
    }
  }

  /** A worker that goes on with its task remains its owner. */
  lemma WorkKeepsOwnership(s: State, t: State, w: nat)
    requires Ownership(s) && w < |s.workers| == |t.workers| && t.workers == s.workers[w := t.workers[w]]
    requires s.workers[w].HasTask() && t.workers[w].HasTask() && s.workers[w].task == t.workers[w].task
    requires t.callers == s.callers && t.queue == s.queue && t.drained == s.drained && t.inProgress == s.inProgress
    ensures Ownership(t)
  {
    hide Count;
    forall id ensures Owners(t, id) == One(id in t.inProgress) {
      assert Owners(s, id) == One(id in s.inProgress);
      CountUpdate(Holds(id), s.workers, w, t.workers[w]);
    }
  }

  lemma EnvKeepsOwnership(s: State, a: EnvAction)
    requires Ownership(s) && EnvEnabled(s, a)
    ensures Ownership(EnvNext(s, a))
  {
    hide Count;
    var t := EnvNext(s, a);
    forall id ensures Owners(t, id) == One(id in t.inProgress) {
      assert Owners(s, id) == One(id in s.inProgress);
      if a.Drain? {
        CountFirst(IsFor(id), s.queue);
        CountAppend(IsFor(id), s.drained, s.queue[0]);
      }
    }
  }

  lemma RestartKeepsOwnership(s: State)
    ensures Ownership(RestartNext(s))
  {
    var t := RestartNext(s);
    forall id ensures Owners(t, id) == 0 {
      CountNone(MarksId(id), t.callers);
      CountNone(Holds(id), t.workers);
    }
  }

  lemma OwnershipKept(s: State, step: Step)
    requires Ownership(s) && Enabled(s, step)
    ensures Ownership(Next(s, step))
  {
    hide Ownership, FetchOrig, OutputOut;
    match step
    case Call(c, a) => CallerKeepsOwnership(s, c, a);
    case Loop(w, a) => LoopKeepsOwnership(s, w, a);
    case Fetch(w, a) => WorkKeepsOwnership(s, FetchNext(s, w, a), w);
    case Output(w, a) => WorkKeepsOwnership(s, OutputNext(s, w, a), w);
    case Env(a) => EnvKeepsOwnership(s, a);
    case Restart => RestartKeepsOwnership(s);
  }

  // ------------------------------------------------------------------ the original images

  /** Exactly the workers inside openImage hold the lock of their file. */
  ghost predicate LocksHeld(workers: seq<Worker>, locks: map<FileID, nat>) {
    && (forall f :: f in locks ==>
          locks[f] < |workers| && workers[locks[f]].HoldsLock() && workers[locks[f]].task.file == f)
    && (forall w :: 0 <= w < |workers| && workers[w].HoldsLock() ==>
          workers[w].task.file in locks && locks[workers[w].task.file] == w)
  }

  predicate BeingWritten(workers: seq<Worker>, o: Originals, f: FileID) {
    f in o.locks && o.locks[f] < |workers| && workers[o.locks[f]].Writing?
  }

  predicate InFlight(workers: seq<Worker>, o: Originals, f: FileID) {
    f in o.locks && o.locks[f] < |workers| && workers[o.locks[f]].Downloading?
  }

  /** An original image in the cache is incomplete exactly while it is being written, or if its last write left it so,
      and whole otherwise; and every download of it but one is paid for by an eviction, a failure or an error of
      opening. */
  predicate OriginalIs(o: Originals, f: FileID, written: bool, inFlight: bool) {
    var e := Look(o.files, f);
    && !(f in o.stuck && written)
    && (!e.Absent? ==> e == if f in o.stuck || written then Partial else Whole(f))
    && (f in o.stuck ==> At(o.failures, f) > 0)
    && (inFlight && !e.Absent? ==> At(o.openErrors, f) > 0)
    && At(o.downloads, f) <= At(o.evictions, f) + At(o.failures, f) + At(o.openErrors, f) + One(inFlight || !e.Absent?)
  }

  predicate OriginalOk(workers: seq<Worker>, o: Originals, f: FileID) {
    OriginalIs(o, f, BeingWritten(workers, o, f), InFlight(workers, o, f))
  }

  ghost predicate OriginalsOk(workers: seq<Worker>, o: Originals) {
    LocksHeld(workers, o.locks) && forall f :: OriginalOk(workers, o, f)
  }

  lemma LockTaken(workers: seq<Worker>, locks: map<FileID, nat>, w: nat, x: Worker)
    requires LocksHeld(workers, locks) && w < |workers| && !workers[w].HoldsLock() && x.HoldsLock()
             && x.task.file !in locks
    ensures LocksHeld(workers[w := x], locks[x.task.file := w])
  {}

  lemma LockKept(workers: seq<Worker>, locks: map<FileID, nat>, w: nat, x: Worker)
    requires LocksHeld(workers, locks) && w < |workers| && workers[w].HoldsLock() == x.HoldsLock()
    requires x.HoldsLock() ==> x.task.file == workers[w].task.file
    ensures LocksHeld(workers[w := x], locks)
  {}

  lemma LockReleased(workers: seq<Worker>, locks: map<FileID, nat>, w: nat, x: Worker)
    requires LocksHeld(workers, locks) && w < |workers| && workers[w].HoldsLock() && !x.HoldsLock()
    ensures LocksHeld(workers[w := x], locks - {workers[w].task.file})
  {}

  lemma FetchKeepsLocks(s: State, w: nat, a: FetchAction)
    requires LocksHeld(s.workers, s.orig.locks) && FetchEnabled(s, w, a)
    ensures var t := FetchNext(s, w, a); LocksHeld(t.workers, t.orig.locks)
  {
    hide LocksHeld;
    var x := FetchWorker(a, s.workers[w].task);
    if a.LockImage? {
      LockTaken(s.workers, s.orig.locks, w, x);
    } else if s.workers[w].HoldsLock() && !x.HoldsLock() {
      LockReleased(s.workers, s.orig.locks, w, x);
    } else {
      LockKept(s.workers, s.orig.locks, w, x);
    }
  }

  lemma FetchKeepsOriginalIs(s: State, w: nat, a: FetchAction)
    requires FetchEnabled(s, w, a) && !a.NoPath?
    requires OriginalIs(s.orig, s.workers[w].task.file, s.workers[w].Writing?, s.workers[w].Downloading?)
    ensures var t := s.workers[w].task; var x := FetchWorker(a, t);
            OriginalIs(FetchOrig(s.orig, w, a, t.file), t.file, x.Writing?, x.Downloading?)
  {}

  /** Only the worker inside the section of a file writes or downloads it. */
  lemma OwnOriginal(workers: seq<Worker>, o: Originals, w: nat)
    requires LocksHeld(workers, o.locks) && w < |workers| && workers[w].HasTask()
    requires workers[w].HoldsLock() || workers[w].task.file !in o.locks
    ensures BeingWritten(workers, o, workers[w].task.file) <==> workers[w].Writing?
    ensures InFlight(workers, o, workers[w].task.file) <==> workers[w].Downloading?
  {}

  lemma FetchKeepsThisOriginal(s: State, w: nat, a: FetchAction)
    requires OriginalsOk(s.workers, s.orig) && FetchEnabled(s, w, a)
    ensures var t := FetchNext(s, w, a); OriginalOk(t.workers, t.orig, s.workers[w].task.file)
  {
    if a.NoPath? {
      NoPathKeepsOriginal(s, w);
    } else {
      var t := FetchNext(s, w, a);
      FetchKeepsLocks(s, w, a);
      SectionLeft(s, w, a);
      hide FetchOrig, OriginalIs, BeingWritten, InFlight, LocksHeld;
      assert OriginalOk(s.workers, s.orig, s.workers[w].task.file);
      OwnOriginal(s.workers, s.orig, w);
      OwnOriginal(t.workers, t.orig, w);
      FetchKeepsOriginalIs(s, w, a);
    }
  }

  lemma SectionLeft(s: State, w: nat, a: FetchAction)
    requires LocksHeld(s.workers, s.orig.locks) && FetchEnabled(s, w, a) && !a.NoPath?
    ensures var x, t := FetchWorker(a, s.workers[w].task), FetchNext(s, w, a);
            x.HoldsLock() || s.workers[w].task.file !in t.orig.locks
  {}

  lemma NoPathKeepsOriginal(s: State, w: nat)
    requires OriginalsOk(s.workers, s.orig) && FetchEnabled(s, w, NoPath)
    ensures var t := FetchNext(s, w, NoPath); OriginalOk(t.workers, t.orig, s.workers[w].task.file)
  {
    OthersKeepOriginals(s, FetchNext(s, w, NoPath), w);
  }

  lemma OtherOriginal(o: Originals, w: nat, a: FetchAction, g: FileID, f: FileID, written: bool, inFlight: bool)
    requires OriginalIs(o, f, written, inFlight) && f != g
    ensures OriginalIs(FetchOrig(o, w, a, g), f, written, inFlight)
    ensures f in FetchOrig(o, w, a, g).locks <==> f in o.locks
    ensures f in o.locks ==> o.locks[f] == FetchOrig(o, w, a, g).locks[f]
  {}

  lemma FetchKeepsOtherOriginals(s: State, w: nat, a: FetchAction, f: FileID)
    requires OriginalsOk(s.workers, s.orig) && FetchEnabled(s, w, a) && f != s.workers[w].task.file
    ensures var t := FetchNext(s, w, a); OriginalOk(t.workers, t.orig, f)
  {
    hide FetchOrig, OriginalIs;
    assert OriginalOk(s.workers, s.orig, f);
    assert f in s.orig.locks ==> s.orig.locks[f] != w;
    OtherOriginal(s.orig, w, a, s.workers[w].task.file, f, BeingWritten(s.workers, s.orig, f),
      InFlight(s.workers, s.orig, f));
  }

  /** A step that leaves the originals alone, and moves at most one worker that holds no lock before or after. */
  lemma OthersKeepOriginals(s: State, t: State, w: nat)
    requires OriginalsOk(s.workers, s.orig) && t.orig == s.orig
    requires t.workers == s.workers || (w < |s.workers| == |t.workers| && t.workers == s.workers[w := t.workers[w]]
                                        && !s.workers[w].HoldsLock() && !t.workers[w].HoldsLock())
    ensures OriginalsOk(t.workers, t.orig)
  {
    forall f ensures OriginalOk(t.workers, t.orig, f) {
      assert OriginalOk(s.workers, s.orig, f);
    }
  }

  lemma EvictionKeepsOriginals(s: State, id: FileID)
    requires OriginalsOk(s.workers, s.orig) && EnvEnabled(s, EvictOriginal(id))
    ensures OriginalsOk(s.workers, EnvNext(s, EvictOriginal(id)).orig)
  {
    forall f ensures OriginalOk(s.workers, EnvNext(s, EvictOriginal(id)).orig, f) {
      assert OriginalOk(s.workers, s.orig, f);
    }
  }

  lemma CallerKeepsOriginals(s: State, c: nat, a: CallerAction)
    requires OriginalsOk(s.workers, s.orig) && CallerEnabled(s, c, a)
    ensures OriginalsOk(CallerNext(s, c, a).workers, CallerNext(s, c, a).orig)
  {
    hide OriginalsOk, MarkIn;
  }

  lemma LoopKeepsOriginals(s: State, w: nat, a: LoopAction)
    requires OriginalsOk(s.workers, s.orig) && LoopEnabled(s, w, a)
    ensures OriginalsOk(LoopNext(s, w, a).workers, LoopNext(s, w, a).orig)
  {
    hide OriginalsOk;
    OthersKeepOriginals(s, LoopNext(s, w, a), w);
  }

  lemma OutputKeepsOriginals(s: State, w: nat, a: OutputAction)
    requires OriginalsOk(s.workers, s.orig) && OutputEnabled(s, w, a)
    ensures OriginalsOk(OutputNext(s, w, a).workers, OutputNext(s, w, a).orig)
  {
    hide OriginalsOk, OutputOut;
    OthersKeepOriginals(s, OutputNext(s, w, a), w);
  }

  lemma EnvKeepsOriginals(s: State, a: EnvAction)
    requires OriginalsOk(s.workers, s.orig) && EnvEnabled(s, a)
    ensures OriginalsOk(EnvNext(s, a).workers, EnvNext(s, a).orig)
  {
    hide OriginalsOk;
    if a.EvictOriginal? { EvictionKeepsOriginals(s, a.id); }
  }

  lemma FetchKeepsOriginals(s: State, w: nat, a: FetchAction)
    requires OriginalsOk(s.workers, s.orig) && FetchEnabled(s, w, a)
    ensures OriginalsOk(FetchNext(s, w, a).workers, FetchNext(s, w, a).orig)
  {
    hide OriginalOk, LocksHeld, FetchNext;
    var t := FetchNext(s, w, a);
    FetchKeepsLocks(s, w, a);
    FetchKeepsThisOriginal(s, w, a);
    forall f ensures OriginalOk(t.workers, t.orig, f) {
      if f != s.workers[w].task.file { FetchKeepsOtherOriginals(s, w, a, f); }
    }
  }

  lemma {:induction false} IncAllAt(m: Counter, ids: set<FileID>, id: FileID)
    ensures At(IncAll(m, ids), id) == At(m, id) + One(id in ids)
  {}

  lemma RestartKeepsOriginals(s: State)
    requires OriginalsOk(s.workers, s.orig)
    ensures OriginalsOk(RestartNext(s).workers, RestartNext(s).orig)
  {
    var t := RestartNext(s);
    forall f ensures OriginalOk(t.workers, t.orig, f) {
      assert OriginalOk(s.workers, s.orig, f);
      IncAllAt(s.orig.failures, s.orig.locks.Keys, f);
    }
  }

  lemma OriginalsKept(s: State, step: Step)
    requires OriginalsOk(s.workers, s.orig) && Enabled(s, step)
    ensures OriginalsOk(Next(s, step).workers, Next(s, step).orig)
  {
    hide OriginalsOk, CallerNext, LoopNext, FetchNext, OutputNext, EnvNext, RestartNext;
    match step
    case Call(c, a) => CallerKeepsOriginals(s, c, a);
    case Loop(w, a) => LoopKeepsOriginals(s, w, a);
    case Fetch(w, a) => FetchKeepsOriginals(s, w, a);
    case Output(w, a) => OutputKeepsOriginals(s, w, a);
    case Env(a) => EnvKeepsOriginals(s, a);
    case Restart => RestartKeepsOriginals(s);
  }

  // ------------------------------------------------------------------ the thumbnails

  /** Every task on its way to, or with, a worker has been marked, and only tasks that ask for it are copied. */
  ghost predicate TasksMarked(s: State) {
    && (forall c :: 0 <= c < |s.callers| && s.callers[c].Marked? ==> s.callers[c].task in s.out.marked)
    && (forall t :: t in s.queue ==> t in s.out.marked)
    && (forall w :: 0 <= w < |s.workers| && s.workers[w].HasTask() ==> s.workers[w].task in s.out.marked)
    && (forall w :: 0 <= w < |s.workers| && s.workers[w].Copying? ==> s.workers[w].task.useOriginal)
  }

  ghost predicate CopiedTo(o: Outputs, id: FileID) {
    exists t :: t in o.marked && t.thumb == id && t.useOriginal
  }

  ghost predicate MadeFrom(o: Outputs, id: FileID, file: FileID) {
    exists t :: t in o.marked && t.thumb == id && t.file == file
  }

  ghost predicate WrittenBy(workers: seq<Worker>, id: FileID, w: int) {
    0 <= w < |workers| && workers[w].IsWritingOut() && workers[w].task.thumb == id
  }

  /** Some worker is copying or resizing into the thumbnail's file. */
  ghost predicate BeingWrittenOut(workers: seq<Worker>, id: FileID) {
    exists w :: WrittenBy(workers, id, w)
  }

  /** The last write of the thumbnail's file ended without completing it, and left it there. */
  predicate LeftBroken(o: Outputs, id: FileID) {
    id in o.short || id in o.stuck
  }

  /** A file of the thumbnail cache is incomplete exactly while it is being written, or after a write that left it so;
      otherwise it is the whole output for a file that the thumbnail was requested for. */
  ghost predicate ThumbOk(workers: seq<Worker>, o: Outputs, id: FileID) {
    var e := Look(o.files, id);
    && !(BeingWrittenOut(workers, id) && LeftBroken(o, id))
    && (!e.Absent? ==> (e.Partial? <==> BeingWrittenOut(workers, id) || LeftBroken(o, id)))
    && (e.Whole? ==> MadeFrom(o, id, e.of))
    && (LeftBroken(o, id) ==> At(o.failures, id) > 0)
    && (id in o.short ==> CopiedTo(o, id))
  }

  ghost predicate ThumbsOk(s: State) {
    TasksMarked(s) && forall id :: ThumbOk(s.workers, s.out, id)
  }

  lemma CallerKeepsThumbs(s: State, c: nat, a: CallerAction)
    requires ThumbsOk(s) && CallerEnabled(s, c, a)
    ensures ThumbsOk(CallerNext(s, c, a))
  {
    var t := CallerNext(s, c, a);
    forall id ensures ThumbOk(t.workers, t.out, id) {
      assert ThumbOk(s.workers, s.out, id);
    }
  }

  /** A worker that writes neither before nor after does not change who is writing. */
  lemma SameWriters(was: seq<Worker>, now: seq<Worker>, w: nat, id: FileID)
    requires w < |was| == |now| && now == was[w := now[w]] && !was[w].IsWritingOut() && !now[w].IsWritingOut()
    ensures BeingWrittenOut(now, id) <==> BeingWrittenOut(was, id)
  {
    if BeingWrittenOut(was, id) {
      var v :| WrittenBy(was, id, v);
      assert WrittenBy(now, id, v);
    }
    if BeingWrittenOut(now, id) {
      var v :| WrittenBy(now, id, v);
      assert WrittenBy(was, id, v);
    }
  }

  /** A step that leaves the thumbnails alone, and moves at most one worker that is not writing any. */
  lemma OthersKeepThumbs(s: State, t: State, w: nat)
    requires ThumbsOk(s) && t.callers == s.callers && (forall x :: x in t.queue ==> x in s.queue)
    requires t.out.files == s.out.files && t.out.marked == s.out.marked && t.out.short == s.out.short
             && t.out.stuck == s.out.stuck
    requires forall id :: At(t.out.failures, id) >= At(s.out.failures, id)
    requires w < |s.workers| == |t.workers| && t.workers == s.workers[w := t.workers[w]]
    requires !s.workers[w].IsWritingOut() && !t.workers[w].IsWritingOut()
    requires t.workers[w].HasTask() ==> t.workers[w].task in s.out.marked
    ensures ThumbsOk(t)
  {
    hide BeingWrittenOut;
    forall id ensures ThumbOk(t.workers, t.out, id) {
      assert ThumbOk(s.workers, s.out, id);
      SameWriters(s.workers, t.workers, w, id);
      assert CopiedTo(s.out, id) ==> CopiedTo(t.out, id);
    }
  }

  /** Only the owner of an id writes its file. */
  lemma NoOtherWriter(s: State, w: nat, v: nat)
    requires Ownership(s) && w < |s.workers| && v < |s.workers| && w != v
    requires s.workers[w].HasTask() && s.workers[v].HasTask()
    ensures s.workers[v].task.thumb != s.workers[w].task.thumb
  {
    var id := s.workers[w].task.thumb;
    assert Owners(s, id) == One(id in s.inProgress);
    if s.workers[v].task.thumb == id {
      CountHasBoth(Holds(id), s.workers, if v < w then v else w, if v < w then w else v);
    }
  }

  /** After the step the file of the worker's thumbnail is being written exactly if the worker is writing. */
  lemma WritesAlone(s: State, w: nat, x: Worker)
    requires Ownership(s) && w < |s.workers| && s.workers[w].HasTask() && x.HasTask() && x.task == s.workers[w].task
    ensures BeingWrittenOut(s.workers[w := x], s.workers[w].task.thumb) <==> x.IsWritingOut()
    ensures BeingWrittenOut(s.workers, s.workers[w].task.thumb) <==> s.workers[w].IsWritingOut()
  {
    var id, now := s.workers[w].task.thumb, s.workers[w := x];
    if x.IsWritingOut() { assert WrittenBy(now, id, w); }
    if s.workers[w].IsWritingOut() { assert WrittenBy(s.workers, id, w); }
    if BeingWrittenOut(now, id) {
      var v :| WrittenBy(now, id, v);
      if v != w { NoOtherWriter(s, w, v); }
    }
    if BeingWrittenOut(s.workers, id) {
      var v :| WrittenBy(s.workers, id, v);
      if v != w { NoOtherWriter(s, w, v); }
    }
  }

  lemma WritesOfOthers(s: State, w: nat, x: Worker, id: FileID)
    requires w < |s.workers| && s.workers[w].HasTask() && x.HasTask() && x.task == s.workers[w].task
             && x.task.thumb != id
    ensures BeingWrittenOut(s.workers[w := x], id) <==> BeingWrittenOut(s.workers, id)
  {
    if BeingWrittenOut(s.workers, id) {
      var v :| WrittenBy(s.workers, id, v);
      assert WrittenBy(s.workers[w := x], id, v);
    }
    if BeingWrittenOut(s.workers[w := x], id) {
      var v :| WrittenBy(s.workers[w := x], id, v);
      assert WrittenBy(s.workers, id, v);
    }
  }

  lemma TaskMarked(o: Outputs, t: Task)
    requires t in o.marked
    ensures MadeFrom(o, t.thumb, t.file) && (t.useOriginal ==> CopiedTo(o, t.thumb))
  {}

  /** What the step does to the thumbnail's file, when the worker is its only writer. */
  lemma OutputKeepsFile(o: Outputs, a: OutputAction, was: Worker, misread: bool, writing: bool)
    requires was.HasTask() && OutputFollows(a, was, misread) && was.task in o.marked && writing == was.IsWritingOut()
    requires var id := was.task.thumb; var e := Look(o.files, id);
             && !(writing && LeftBroken(o, id)) && (!e.Absent? ==> (e.Partial? <==> writing || LeftBroken(o, id)))
             && (e.Whole? ==> MadeFrom(o, id, e.of)) && (LeftBroken(o, id) ==> At(o.failures, id) > 0)
             && (id in o.short ==> CopiedTo(o, id)) && (was.Copying? ==> was.task.useOriginal)
    ensures var id, p := was.task.thumb, OutputOut(o, a, was.task, misread);
            var e, after := Look(p.files, id), OutputWorker(a, was.task).IsWritingOut();
            && !(after && LeftBroken(p, id)) && (!e.Absent? ==> (e.Partial? <==> after || LeftBroken(p, id)))
            && (e.Whole? ==> MadeFrom(p, id, e.of)) && (LeftBroken(p, id) ==> At(p.failures, id) > 0)
            && (id in p.short ==> CopiedTo(p, id))
  {
    hide CopiedTo, MadeFrom;
    TaskMarked(o, was.task);
    SameMarked(o, OutputOut(o, a, was.task, misread), was.task.thumb);
  }

  lemma OutputKeepsThisThumb(s: State, w: nat, a: OutputAction)
    requires Ownership(s) && ThumbsOk(s) && OutputEnabled(s, w, a)
    ensures var t := OutputNext(s, w, a); ThumbOk(t.workers, t.out, s.workers[w].task.thumb)
  {
    hide BeingWrittenOut, Ownership, CopiedTo, MadeFrom, OutputOut, LeftBroken;
    var task := s.workers[w].task;
    assert ThumbOk(s.workers, s.out, task.thumb) && task in s.out.marked;
    WritesAlone(s, w, OutputWorker(a, task));
    OutputKeepsFile(s.out, a, s.workers[w], w in s.orig.misread, s.workers[w].IsWritingOut());
  }

  lemma OtherOutput(o: Outputs, a: OutputAction, t: Task, misread: bool, id: FileID)
    requires id != t.thumb
    ensures var p := OutputOut(o, a, t, misread);
            && Look(p.files, id) == Look(o.files, id) && At(p.failures, id) == At(o.failures, id)
            && (id in p.short <==> id in o.short) && (id in p.stuck <==> id in o.stuck) && p.marked == o.marked
  {}

  lemma OutputKeepsOtherThumb(s: State, w: nat, a: OutputAction, id: FileID)
    requires ThumbsOk(s) && OutputEnabled(s, w, a) && id != s.workers[w].task.thumb
    ensures var t := OutputNext(s, w, a); ThumbOk(t.workers, t.out, id)
  {
    hide BeingWrittenOut, CopiedTo, MadeFrom, OutputOut, Look;
    var task := s.workers[w].task;
    assert ThumbOk(s.workers, s.out, id);
    OtherOutput(s.out, a, task, w in s.orig.misread, id);
    WritesOfOthers(s, w, OutputWorker(a, task), id);
    SameMarked(s.out, OutputOut(s.out, a, task, w in s.orig.misread), id);
  }

  lemma EnvKeepsThumbs(s: State, a: EnvAction)
    requires ThumbsOk(s) && EnvEnabled(s, a)
    ensures ThumbsOk(EnvNext(s, a))
  {
    hide BeingWrittenOut, CopiedTo, MadeFrom;
    var t := EnvNext(s, a);
    forall id ensures ThumbOk(t.workers, t.out, id) {
      assert ThumbOk(s.workers, s.out, id);
      SameMarked(s.out, t.out, id);
    }
  }

  lemma SameMarked(o: Outputs, p: Outputs, id: FileID)
    requires o.marked <= p.marked
    ensures CopiedTo(o, id) ==> CopiedTo(p, id)
    ensures forall f :: MadeFrom(o, id, f) ==> MadeFrom(p, id, f)
  {}

  lemma LoopKeepsThumbs(s: State, w: nat, a: LoopAction)
    requires ThumbsOk(s) && LoopEnabled(s, w, a)
    ensures ThumbsOk(LoopNext(s, w, a))
  {
    hide ThumbOk;
    OthersKeepThumbs(s, LoopNext(s, w, a), w);
  }

  lemma FetchKeepsThumbs(s: State, w: nat, a: FetchAction)
    requires ThumbsOk(s) && FetchEnabled(s, w, a)
    ensures ThumbsOk(FetchNext(s, w, a))
  {
    hide ThumbOk, FetchOrig;
    OthersKeepThumbs(s, FetchNext(s, w, a), w);
  }

  lemma OutputKeepsThumbs(s: State, w: nat, a: OutputAction)
    requires Ownership(s) && ThumbsOk(s) && OutputEnabled(s, w, a)
    ensures ThumbsOk(OutputNext(s, w, a))
  {
    hide ThumbOk, Ownership;
    forall id ensures ThumbOk(OutputNext(s, w, a).workers, OutputNext(s, w, a).out, id) {
      if id == s.workers[w].task.thumb { OutputKeepsThisThumb(s, w, a); } else { OutputKeepsOtherThumb(s, w, a, id); }
    }
  }

  /** What is being written out when the process ends is in progress. */
  lemma WritersInProgress(s: State, id: FileID)
    requires Ownership(s) && BeingWrittenOut(s.workers, id)
    ensures id in s.inProgress
  {
    var w :| WrittenBy(s.workers, id, w);
    assert Owners(s, id) == One(id in s.inProgress);
    CountHas(Holds(id), s.workers, w);
  }

  lemma NowStuck(s: State, id: FileID)
    ensures id in RestartNext(s).out.stuck <==> id in s.out.stuck || BeingWrittenOut(s.workers, id)
    ensures !BeingWrittenOut(RestartNext(s).workers, id)
  {
    if BeingWrittenOut(s.workers, id) {
      var w :| WrittenBy(s.workers, id, w);
    }
    if id in RestartNext(s).out.stuck && id !in s.out.stuck {
      var w :| 0 <= w < |s.workers| && s.workers[w].IsWritingOut() && s.workers[w].task.thumb == id;
      assert WrittenBy(s.workers, id, w);
    }
  }

  lemma RestartKeepsThumbs(s: State)
    requires Ownership(s) && ThumbsOk(s)
    ensures ThumbsOk(RestartNext(s))
  {
    hide BeingWrittenOut, Ownership, CopiedTo, MadeFrom;
    var t := RestartNext(s);
    forall id ensures ThumbOk(t.workers, t.out, id) {
      assert ThumbOk(s.workers, s.out, id);
      NowStuck(s, id);
      IncAllAt(s.out.failures, s.inProgress, id);
      SameMarked(s.out, t.out, id);
      if BeingWrittenOut(s.workers, id) { WritersInProgress(s, id); }
    }
  }

  lemma ThumbsKept(s: State, step: Step)
    requires Ownership(s) && ThumbsOk(s) && Enabled(s, step)
    ensures ThumbsOk(Next(s, step))
  {
    hide OutputOut, MarkIn, FetchOrig, RestartNext, ThumbOk, ThumbsOk, Ownership;
    match step
    case Call(c, a) => CallerKeepsThumbs(s, c, a);
    case Loop(w, a) => LoopKeepsThumbs(s, w, a);
    case Fetch(w, a) => FetchKeepsThumbs(s, w, a);
    case Output(w, a) => OutputKeepsThumbs(s, w, a);
    case Env(a) => EnvKeepsThumbs(s, a);
    case Restart => RestartKeepsThumbs(s);
  }

  // ------------------------------------------------------------------ what each kind of step leaves alone

  lemma CallerFrame(s: State, c: nat, a: CallerAction)
    requires CallerEnabled(s, c, a) && !a.Mark?
    ensures CallerNext(s, c, a).out == s.out
  {}

  lemma FetchFrame(s: State, w: nat, a: FetchAction)
    requires FetchEnabled(s, w, a)
    ensures var t := FetchNext(s, w, a);
            && t.callers == s.callers && t.queue == s.queue && t.drained == s.drained && t.inProgress == s.inProgress
            && t.out == s.out.(failures := t.out.failures)
  {
    hide FetchOrig;
  }

  lemma OutputFrame(s: State, w: nat, a: OutputAction)
    requires OutputEnabled(s, w, a)
    ensures var t := OutputNext(s, w, a);
            && t.callers == s.callers && t.queue == s.queue && t.drained == s.drained && t.inProgress == s.inProgress
            && t.out == s.out.(files := t.out.files, failures := t.out.failures, truncations := t.out.truncations,
                               short := t.out.short, stuck := t.out.stuck)
  {}

  lemma RestartFrame(s: State)
    ensures var t := RestartNext(s);
            && |t.callers| == |s.callers| && (forall c :: 0 <= c < |t.callers| ==> t.callers[c].Outside?)
            && |t.workers| == |s.workers| && (forall w :: 0 <= w < |t.workers| ==> t.workers[w].Idle?)
            && t.queue == t.drained == [] && t.inProgress == {} && !t.closed && !t.panicked
            && t.out == s.out.(failures := t.out.failures, stuck := t.out.stuck)
  {}

  lemma EnvFrame(s: State, a: EnvAction)
    requires EnvEnabled(s, a)
    ensures var t := EnvNext(s, a);
            && t.callers == s.callers && t.workers == s.workers && t.inProgress == s.inProgress
            && t.out == s.out.(files := t.out.files, evictions := t.out.evictions)
  {}

  // ------------------------------------------------------------------ what callers are given

  /** A call that was given a whole thumbnail was given the output for a file that its thumbnail was requested for. */
  ghost predicate GivenOk(callers: seq<Caller>, o: Outputs) {
    forall c :: 0 <= c < |callers| && callers[c].Returned? && callers[c].got.Whole? ==>
      MadeFrom(o, callers[c].task.thumb, callers[c].got.of)
  }

  lemma CallerKeepsGiven(s: State, c: nat, a: CallerAction)
    requires ThumbsOk(s) && GivenOk(s.callers, s.out) && CallerEnabled(s, c, a)
    ensures GivenOk(CallerNext(s, c, a).callers, CallerNext(s, c, a).out)
  {
    var t := CallerNext(s, c, a);
    if a.Hit? || a.Reopen? { assert ThumbOk(s.workers, s.out, s.callers[c].task.thumb); }
    forall d | 0 <= d < |t.callers| && t.callers[d].Returned? && t.callers[d].got.Whole?
      ensures MadeFrom(t.out, t.callers[d].task.thumb, t.callers[d].got.of)
    {
      if t.callers[d] == s.callers[d] {
        var x :| x in s.out.marked && x.thumb == t.callers[d].task.thumb && x.file == t.callers[d].got.of;
        assert x in t.out.marked;
      }
    }
  }

  lemma GivenKept(s: State, step: Step)
    requires ThumbsOk(s) && GivenOk(s.callers, s.out) && Enabled(s, step)
    ensures GivenOk(Next(s, step).callers, Next(s, step).out)
  {
    hide ThumbsOk, FetchNext, OutputNext, EnvNext, CallerNext, RestartNext;
    match step
    case Call(c, a) => CallerKeepsGiven(s, c, a);
    case Loop(_, _) =>
    case Fetch(w, a) => FetchFrame(s, w, a);
    case Output(w, a) => OutputFrame(s, w, a);
    case Env(a) => EnvFrame(s, a);
    case Restart => RestartFrame(s);
  }

  // ------------------------------------------------------------------ thumbnails of incomplete originals

  /** A write of the original failed, or was cut off, or its cached file could not be opened. */
  predicate Troubled(o: Originals, f: FileID) {
    At(o.failures, f) > 0 || At(o.openErrors, f) > 0
  }

  /** A worker reads an incomplete original only after such trouble, and goes on to resize it only if it is RAW. */
  predicate ReadOk(x: Worker, misread: bool, o: Originals) {
    misread ==>
      && (x.IsReading() || x.Resizing? ==> Troubled(o, x.task.file))
      && (x.Resizing? ==> x.task.raw && !x.task.useOriginal)
  }

  /** Some task was to resize this RAW image for this thumbnail. */
  ghost predicate MadeOfRaw(o: Outputs, id: FileID, file: FileID) {
    exists t :: t in o.marked && t.thumb == id && t.file == file && t.raw && !t.useOriginal
  }

  /** What the entry is, if it is a thumbnail made from an incomplete original. */
  ghost predicate Excused(o: Originals, out: Outputs, id: FileID, e: Entry) {
    e.Spoiled? ==> MadeOfRaw(out, id, e.of) && Troubled(o, e.of)
  }

  ghost predicate SpoiledOk(s: State) {
    && (forall w :: 0 <= w < |s.workers| ==> ReadOk(s.workers[w], w in s.orig.misread, s.orig))
    && (forall id :: Excused(s.orig, s.out, id, Look(s.out.files, id)))
    && (forall c :: 0 <= c < |s.callers| && s.callers[c].Returned? ==>
       Excused(s.orig, s.out, s.callers[c].task.thumb, s.callers[c].got))
  }

  lemma ExcusedStill(o: Originals, p: Originals, out: Outputs, now: Outputs, id: FileID, e: Entry)
    requires Excused(o, out, id, e) && out.marked <= now.marked && forall f :: Troubled(o, f) ==> Troubled(p, f)
    ensures Excused(p, now, id, e)
  {}

  /** A step after which the files and what calls were given are as before, or not there. */
  lemma EntriesStillExcused(s: State, t: State)
    requires SpoiledOk(s) && s.out.marked <= t.out.marked && forall f :: Troubled(s.orig, f) ==> Troubled(t.orig, f)
    requires forall id :: Look(t.out.files, id) in {Absent, Partial, Look(s.out.files, id)}
    requires |t.callers| == |s.callers|
    requires forall c :: 0 <= c < |t.callers| && t.callers[c].Returned? && t.callers[c] != s.callers[c] ==>
               t.callers[c].got in {Absent, Look(s.out.files, t.callers[c].task.thumb)}
    ensures forall id :: Excused(t.orig, t.out, id, Look(t.out.files, id))
    ensures forall c :: 0 <= c < |t.callers| && t.callers[c].Returned? ==>
            Excused(t.orig, t.out, t.callers[c].task.thumb, t.callers[c].got)
  {
    hide ReadOk, Troubled, MadeOfRaw, Look;
    forall id
      ensures Excused(t.orig, t.out, id, Look(s.out.files, id)) && Excused(t.orig, t.out, id, Look(t.out.files, id))
    {
      ExcusedStill(s.orig, t.orig, s.out, t.out, id, Look(s.out.files, id));
    }
    forall c | 0 <= c < |t.callers| && t.callers[c].Returned?
      ensures Excused(t.orig, t.out, t.callers[c].task.thumb, t.callers[c].got)
    {
      if t.callers[c] == s.callers[c] {
        ExcusedStill(s.orig, t.orig, s.out, t.out, t.callers[c].task.thumb, t.callers[c].got);
      }
    }
  }

  lemma CallerKeepsSpoiled(s: State, c: nat, a: CallerAction)
    requires SpoiledOk(s) && CallerEnabled(s, c, a)
    ensures SpoiledOk(CallerNext(s, c, a))
  {
    hide ReadOk, Excused, Troubled;
    EntriesStillExcused(s, CallerNext(s, c, a));
  }

  lemma LoopKeepsSpoiled(s: State, w: nat, a: LoopAction)
    requires SpoiledOk(s) && LoopEnabled(s, w, a)
    ensures SpoiledOk(LoopNext(s, w, a))
  {
    hide Excused, Troubled;
    EntriesStillExcused(s, LoopNext(s, w, a));
  }

  lemma EnvKeepsSpoiled(s: State, a: EnvAction)
    requires SpoiledOk(s) && EnvEnabled(s, a)
    ensures SpoiledOk(EnvNext(s, a))
  {
    hide Excused;
    EntriesStillExcused(s, EnvNext(s, a));
  }

  lemma RestartKeepsSpoiled(s: State)
    requires SpoiledOk(s)
    ensures SpoiledOk(RestartNext(s))
  {
    hide Excused;
    var t := RestartNext(s);
    forall f | Troubled(s.orig, f) ensures Troubled(t.orig, f) { IncAllAt(s.orig.failures, s.orig.locks.Keys, f); }
    EntriesStillExcused(s, t);
  }

  /** The worker that opens an incomplete original, or truncates one that others read, does so after some trouble. */
  lemma FetchIsTroubled(s: State, w: nat, a: FetchAction)
    requires OriginalsOk(s.workers, s.orig) && FetchEnabled(s, w, a)
    ensures var f := s.workers[w].task.file;
            && ((a.Found? || a.Reopened?) && Look(s.orig.files, f).Partial? ==> Troubled(s.orig, f))
            && (a.Create? && a.breaks != {} ==> Troubled(s.orig, f))
  {
    assert OriginalOk(s.workers, s.orig, s.workers[w].task.file);
  }

  lemma TroubleStays(o: Originals, w: nat, a: FetchAction, f: FileID)
    ensures forall g :: Troubled(o, g) ==> Troubled(FetchOrig(o, w, a, f), g)
  {}

  lemma FetchKeepsReads(s: State, w: nat, a: FetchAction)
    requires OriginalsOk(s.workers, s.orig) && SpoiledOk(s) && FetchEnabled(s, w, a)
    ensures var t := FetchNext(s, w, a);
            forall v :: 0 <= v < |t.workers| ==> ReadOk(t.workers[v], v in t.orig.misread, t.orig)
  {
    hide OriginalsOk, Excused, Troubled;
    var t := FetchNext(s, w, a);
    FetchIsTroubled(s, w, a);
    TroubleStays(s.orig, w, a, s.workers[w].task.file);
    forall v | 0 <= v < |t.workers| ensures ReadOk(t.workers[v], v in t.orig.misread, t.orig) {
      assert ReadOk(s.workers[v], v in s.orig.misread, s.orig);
    }
  }

  lemma FetchKeepsSpoiled(s: State, w: nat, a: FetchAction)
    requires OriginalsOk(s.workers, s.orig) && SpoiledOk(s) && FetchEnabled(s, w, a)
    ensures SpoiledOk(FetchNext(s, w, a))
  {
    FetchKeepsReads(s, w, a);
    TroubleStays(s.orig, w, a, s.workers[w].task.file);
    hide OriginalsOk, Excused, ReadOk, Troubled, FetchOrig;
    EntriesStillExcused(s, FetchNext(s, w, a));
  }

  lemma OutputKeepsReads(s: State, w: nat, a: OutputAction)
    requires SpoiledOk(s) && OutputEnabled(s, w, a)
    ensures var t := OutputNext(s, w, a);
            forall v :: 0 <= v < |t.workers| ==> ReadOk(t.workers[v], v in t.orig.misread, t.orig)
  {
    hide Excused, Troubled, OutputOut;
    assert ReadOk(s.workers[w], w in s.orig.misread, s.orig);
  }

  /** A thumbnail made from an incomplete original is one of a RAW image. */
  lemma OutputIsExcused(s: State, w: nat, a: OutputAction)
    requires TasksMarked(s) && SpoiledOk(s) && OutputEnabled(s, w, a)
    ensures var t, id := OutputNext(s, w, a), s.workers[w].task.thumb; Excused(t.orig, t.out, id, Look(t.out.files, id))
  {
    hide Troubled;
    assert ReadOk(s.workers[w], w in s.orig.misread, s.orig);
    assert Excused(s.orig, s.out, s.workers[w].task.thumb, Look(s.out.files, s.workers[w].task.thumb));
  }

  lemma OutputKeepsSpoiled(s: State, w: nat, a: OutputAction)
    requires TasksMarked(s) && SpoiledOk(s) && OutputEnabled(s, w, a)
    ensures SpoiledOk(OutputNext(s, w, a))
  {
    OutputKeepsReads(s, w, a);
    OutputIsExcused(s, w, a);
    hide TasksMarked, Troubled, ReadOk, Excused, OutputOut, MadeOfRaw;
    var t := OutputNext(s, w, a);
    OutputFrame(s, w, a);
    forall id ensures Excused(t.orig, t.out, id, Look(t.out.files, id)) {
      ExcusedStill(s.orig, t.orig, s.out, t.out, id, Look(s.out.files, id));
      if id != s.workers[w].task.thumb { OtherOutput(s.out, a, s.workers[w].task, w in s.orig.misread, id); }
    }
    forall c | 0 <= c < |t.callers| && t.callers[c].Returned?
      ensures Excused(t.orig, t.out, t.callers[c].task.thumb, t.callers[c].got)
    {
      ExcusedStill(s.orig, t.orig, s.out, t.out, t.callers[c].task.thumb, t.callers[c].got);
    }
  }

  lemma SpoiledKept(s: State, step: Step)
    requires OriginalsOk(s.workers, s.orig) && TasksMarked(s) && SpoiledOk(s) && Enabled(s, step)
    ensures SpoiledOk(Next(s, step))
  {
    hide OriginalsOk, TasksMarked, SpoiledOk, FetchNext, OutputNext, EnvNext, CallerNext, LoopNext, RestartNext;
    match step
    case Call(c, a) => CallerKeepsSpoiled(s, c, a);
    case Loop(w, a) => LoopKeepsSpoiled(s, w, a);
    case Fetch(w, a) => FetchKeepsSpoiled(s, w, a);
    case Output(w, a) => OutputKeepsSpoiled(s, w, a);
    case Env(a) => EnvKeepsSpoiled(s, a);
    case Restart => RestartKeepsSpoiled(s);
  }

  // ------------------------------------------------------------------ the waiting callers

  /** A call that marked or joined a task waits on an id in progress, or a task for it has finished since; a call that
      left the loop saw the latter. */
  predicate WaitOk(c: Caller, inProgress: set<FileID>, finished: Counter) {
    match c
    case Marked(t, seen) => seen < At(finished, t.thumb) || (seen == At(finished, t.thumb) && t.thumb in inProgress)
    case Polling(t, seen) => seen < At(finished, t.thumb) || (seen == At(finished, t.thumb) && t.thumb in inProgress)
    case Reopening(t, seen) => seen < At(finished, t.thumb)
    case _ => true
  }

  ghost predicate WaitsOk(s: State) {
    forall c :: 0 <= c < |s.callers| ==> WaitOk(s.callers[c], s.inProgress, s.out.finished)
  }

  lemma CallerKeepsWaits(s: State, c: nat, a: CallerAction)
    requires WaitsOk(s) && CallerEnabled(s, c, a)
    ensures WaitsOk(CallerNext(s, c, a))
  {
    var t := CallerNext(s, c, a);
    forall d | 0 <= d < |t.callers| ensures WaitOk(t.callers[d], t.inProgress, t.out.finished) {
      assert WaitOk(s.callers[d], s.inProgress, s.out.finished);
    }
  }

  /** Nobody misses the end of a task: its count goes up in the section that removes its id. */
  lemma LoopKeepsWaits(s: State, w: nat, a: LoopAction)
    requires WaitsOk(s) && LoopEnabled(s, w, a)
    ensures WaitsOk(LoopNext(s, w, a))
  {
    var t := LoopNext(s, w, a);
    forall d | 0 <= d < |t.callers| ensures WaitOk(t.callers[d], t.inProgress, t.out.finished) {
      assert WaitOk(s.callers[d], s.inProgress, s.out.finished);
    }
  }

  lemma OthersKeepWaits(s: State, t: State)
    requires WaitsOk(s) && t.callers == s.callers && t.inProgress == s.inProgress && t.out.finished == s.out.finished
    ensures WaitsOk(t)
  {
    forall d | 0 <= d < |t.callers| ensures WaitOk(t.callers[d], t.inProgress, t.out.finished) {
      assert WaitOk(s.callers[d], s.inProgress, s.out.finished);
    }
  }

  lemma RestartKeepsWaits(s: State)
    ensures WaitsOk(RestartNext(s))
  {}

  lemma WaitsKept(s: State, step: Step)
    requires WaitsOk(s) && Enabled(s, step)
    ensures WaitsOk(Next(s, step))
  {
    hide WaitsOk, FetchNext, OutputNext, EnvNext, CallerNext, LoopNext, RestartNext;
    match step
    case Call(c, a) => CallerKeepsWaits(s, c, a);
    case Loop(w, a) => LoopKeepsWaits(s, w, a);
    case Fetch(w, a) => FetchFrame(s, w, a); OthersKeepWaits(s, FetchNext(s, w, a));
    case Output(w, a) => OutputFrame(s, w, a); OthersKeepWaits(s, OutputNext(s, w, a));
    case Env(a) => EnvFrame(s, a); OthersKeepWaits(s, EnvNext(s, a));
    case Restart => RestartKeepsWaits(s);
  }

  // ------------------------------------------------------------------ how often an id is marked

  function NotYetOut(id: FileID): Worker -> bool {
    (w: Worker) => w.BeforeOutput() && w.task.thumb == id
  }

  /** How many live tasks for the id have not touched its cache file yet. */
  function Pending(s: State, id: FileID): nat {
    Count(MarksId(id), s.callers) + Count(IsFor(id), s.queue) + Count(NotYetOut(id), s.workers)
      + Count(IsFor(id), s.drained)
  }

  /** Every mark but one is paid for by an eviction, a failure, a stale look at the cache or an error of opening; and
      every stale or blind mark comes on top of an earlier one. */
  ghost predicate MarkOk(s: State, id: FileID) {
    var present := !Look(s.out.files, id).Absent?;
    && At(s.out.marks, id) <= At(s.out.evictions, id) + At(s.out.failures, id) + At(s.out.stale, id)
                              + At(s.out.blind, id) + One(present || Pending(s, id) > 0)
    && At(s.out.stale, id) + At(s.out.blind, id) + One(present || At(s.out.marks, id) > 0) <= At(s.out.marks, id)
  }

  ghost predicate MarkedCounted(o: Outputs) {
    forall t :: t in o.marked ==> At(o.marks, t.thumb) > 0
  }

  ghost predicate MarksOk(s: State) {
    MarkedCounted(s.out) && forall id :: MarkOk(s, id)
  }

  lemma {:induction false} CountMono<T>(p: T -> bool, q: T -> bool, s: seq<T>)
    requires forall x :: x in s && p(x) ==> q(x)
    ensures Count(p, s) <= Count(q, s)
  {
    if |s| > 0 { CountMono(p, q, s[1..]); }
  }

  lemma CallerPending(s: State, c: nat, a: CallerAction, id: FileID)
    requires CallerEnabled(s, c, a)
    ensures var marked := a.Mark? && s.callers[c].task.thumb == id;
            Pending(CallerNext(s, c, a), id) == Pending(s, id) + One(marked)
  {
    hide Count, MarkIn;
    var t := CallerNext(s, c, a);
    CountUpdate(MarksId(id), s.callers, c, t.callers[c]);
    if a.SendOnClosed? { assert t.callers == s.callers; }
    if a.Send? { CountAppend(IsFor(id), s.queue, s.callers[c].task); }
  }

  lemma MarkInAt(o: Outputs, t: Task, absent: bool, id: FileID)
    ensures var p := MarkIn(o, t, absent);
            && p == o.(marked := p.marked, marks := p.marks, stale := p.stale, blind := p.blind)
            && At(p.marks, id) == At(o.marks, id) + One(id == t.thumb)
            && At(p.stale, id) + At(p.blind, id)
            == At(o.stale, id) + At(o.blind, id) + One(id == t.thumb && !Look(o.files, id).Absent?)
  {}

  lemma NotInProgress(s: State, id: FileID)
    requires Ownership(s) && id !in s.inProgress
    ensures Pending(s, id) == 0
  {
    hide Count;
    assert Owners(s, id) == One(id in s.inProgress);
    CountMono(NotYetOut(id), Holds(id), s.workers);
  }

  lemma CallerKeepsMark(s: State, c: nat, a: CallerAction, id: FileID)
    requires Ownership(s) && MarkOk(s, id) && CallerEnabled(s, c, a)
    ensures MarkOk(CallerNext(s, c, a), id)
  {
    CallerPending(s, c, a, id);
    if id !in s.inProgress { NotInProgress(s, id); }
    if a.Mark? { MarkInAt(s.out, s.callers[c].task, s.callers[c].absent, id); } else { CallerFrame(s, c, a); }
    hide Pending, Ownership, MarkIn;
  }

  lemma LoopKeepsMark(s: State, w: nat, a: LoopAction, id: FileID)
    requires MarkOk(s, id) && LoopEnabled(s, w, a)
    ensures MarkOk(LoopNext(s, w, a), id)
  {
    hide Count;
    var t := LoopNext(s, w, a);
    CountUpdate(NotYetOut(id), s.workers, w, t.workers[w]);
    if a.Receive? { CountFirst(IsFor(id), s.queue); }
  }

  lemma FetchKeepsMark(s: State, w: nat, a: FetchAction, id: FileID)
    requires MarkOk(s, id) && FetchEnabled(s, w, a)
    ensures MarkOk(FetchNext(s, w, a), id)
  {
    hide Count, FetchOrig;
    CountUpdate(NotYetOut(id), s.workers, w, FetchNext(s, w, a).workers[w]);
  }

  lemma OutputPending(s: State, w: nat, a: OutputAction, id: FileID)
    requires OutputEnabled(s, w, a)
    ensures Pending(OutputNext(s, w, a), id) == Pending(s, id) - One(NotYetOut(id)(s.workers[w]))
  {
    hide Count, OutputOut;
    CountUpdate(NotYetOut(id), s.workers, w, OutputNext(s, w, a).workers[w]);
  }

  lemma OutputKeepsMark(s: State, w: nat, a: OutputAction, id: FileID)
    requires MarkOk(s, id) && OutputEnabled(s, w, a) && At(s.out.marks, s.workers[w].task.thumb) > 0
    ensures MarkOk(OutputNext(s, w, a), id)
  {
    OutputPending(s, w, a, id);
    if id == s.workers[w].task.thumb {
      OutputKeepsThisMark(s, w, a);
    } else {
      OutputFrame(s, w, a);
      OtherOutput(s.out, a, s.workers[w].task, w in s.orig.misread, id);
      hide Pending, OutputOut;
    }
  }

  lemma OutputStarts(s: State, w: nat, a: OutputAction)
    requires OutputEnabled(s, w, a)
    ensures NotYetOut(s.workers[w].task.thumb)(s.workers[w]) <==> a.NoOutput? || a.CreateCopy? || a.StartResize?
  {}

  lemma OutputKeepsThisMark(s: State, w: nat, a: OutputAction)
    requires OutputEnabled(s, w, a) && MarkOk(s, s.workers[w].task.thumb)
             && At(s.out.marks, s.workers[w].task.thumb) > 0
    ensures MarkOk(OutputNext(s, w, a), s.workers[w].task.thumb)
  {
    OutputPending(s, w, a, s.workers[w].task.thumb);
    OutputMarks(s.out, a, s.workers[w].task, w in s.orig.misread);
    OutputStarts(s, w, a);
    hide Pending, OutputOut, OutputFollows, NotYetOut, AllHave;
  }

  /** The action leaves the thumbnail's file there, or counts as a failure, or the file was evicted. */
  lemma OutputMarks(o: Outputs, a: OutputAction, t: Task, misread: bool)
    ensures var p := OutputOut(o, a, t, misread);
            && p.marks == o.marks && p.stale == o.stale && p.blind == o.blind && p.evictions == o.evictions
            && At(p.failures, t.thumb) == At(o.failures, t.thumb) + One(a.NoOutput? || a.CopyShort? || a.ResizeFails?)
            && (a.CreateCopy? || a.StartResize? ==> !Look(p.files, t.thumb).Absent?)
            && (a.CopyOk? ==> (Look(p.files, t.thumb).Absent? <==> Look(o.files, t.thumb).Absent?))
            && (a.ResizeOk? && Look(p.files, t.thumb).Absent? ==> Look(o.files, t.thumb).Absent?)
            && (a.NoOutput? || a.CopyShort? ==> Look(p.files, t.thumb) == Look(o.files, t.thumb))
            && (a.ResizeFails? && Look(o.files, t.thumb).Absent? ==> Look(p.files, t.thumb).Absent?)
  {}

  lemma EnvKeepsMark(s: State, a: EnvAction, id: FileID)
    requires MarkOk(s, id) && EnvEnabled(s, a)
    ensures MarkOk(EnvNext(s, a), id)
  {
    hide Count;
    if a.Drain? {
      CountFirst(IsFor(id), s.queue);
      CountAppend(IsFor(id), s.drained, s.queue[0]);
    }
  }

  /** The tasks that a restart loses were in progress. */
  lemma RestartKeepsMark(s: State, id: FileID)
    requires Ownership(s) && MarkOk(s, id)
    ensures MarkOk(RestartNext(s), id)
  {
    hide Count;
    var t := RestartNext(s);
    CountNone(MarksId(id), t.callers);
    CountNone(NotYetOut(id), t.workers);
    IncAllAt(s.out.failures, s.inProgress, id);
    assert Owners(s, id) == One(id in s.inProgress);
    CountMono(NotYetOut(id), Holds(id), s.workers);
  }

  lemma MarkCounts(o: Outputs, t: Task, absent: bool)
    requires MarkedCounted(o)
    ensures MarkedCounted(MarkIn(o, t, absent))
  {}

  lemma MarksKept(s: State, step: Step)
    requires Ownership(s) && TasksMarked(s) && MarksOk(s) && Enabled(s, step)
    ensures MarksOk(Next(s, step))
  {
    hide MarkOk, Ownership, FetchNext, OutputNext, EnvNext, RestartNext;
    var t := Next(s, step);
    assert MarkedCounted(t.out) by {
      match step
      case Call(c, a) =>
        if a.Mark? { MarkCounts(s.out, s.callers[c].task, s.callers[c].absent); } else { CallerFrame(s, c, a); }
      case Loop(_, _) =>
      case Fetch(w, a) => FetchFrame(s, w, a);
      case Output(w, a) => OutputFrame(s, w, a);
      case Env(a) => EnvFrame(s, a);
      case Restart => RestartFrame(s);
    }
    forall id ensures MarkOk(t, id) {
      match step
      case Call(c, a) => CallerKeepsMark(s, c, a, id);
      case Loop(w, a) => LoopKeepsMark(s, w, a, id);
      case Fetch(w, a) => FetchKeepsMark(s, w, a, id);
      case Output(w, a) => OutputKeepsMark(s, w, a, id);
      case Env(a) => EnvKeepsMark(s, a, id);
      case Restart => RestartKeepsMark(s, id);
    }
  }

  // ------------------------------------------------------------------ thumbnails truncated under their readers

  /** The file of a thumbnail is truncated only by tasks that were marked while it was there. */
  ghost predicate TruncOk(s: State, id: FileID) {
    At(s.out.truncations, id) + One(!Look(s.out.files, id).Absent? && Pending(s, id) > 0)
      <= At(s.out.stale, id) + At(s.out.blind, id)
  }

  /** A call's thumbnail is torn only if its file was truncated. */
  predicate TornOk(callers: seq<Caller>, torn: set<nat>, o: Outputs) {
    forall c :: c in torn && c < |callers| && callers[c].Returned? ==> At(o.truncations, callers[c].task.thumb) > 0
  }

  ghost predicate ReadersOk(s: State) {
    TornOk(s.callers, s.torn, s.out) && forall id :: TruncOk(s, id)
  }

  /** With a worker past the opening of the thumbnail's file no task for it is about to open it. */
  lemma NonePending(s: State, w: nat)
    requires Ownership(s) && w < |s.workers| && s.workers[w].HasTask() && !s.workers[w].BeforeOutput()
    ensures Pending(s, s.workers[w].task.thumb) == 0
  {
    hide Count;
    var id := s.workers[w].task.thumb;
    var others := s.workers[w := Idle];
    assert Owners(s, id) == One(id in s.inProgress);
    CountUpdate(NotYetOut(id), s.workers, w, Idle);
    CountUpdate(Holds(id), s.workers, w, Idle);
    CountMono(NotYetOut(id), Holds(id), others);
  }

  lemma CallerKeepsTrunc(s: State, c: nat, a: CallerAction, id: FileID)
    requires Ownership(s) && TruncOk(s, id) && CallerEnabled(s, c, a)
    ensures TruncOk(CallerNext(s, c, a), id)
  {
    CallerPending(s, c, a, id);
    if id !in s.inProgress { NotInProgress(s, id); }
    if a.Mark? { MarkInAt(s.out, s.callers[c].task, s.callers[c].absent, id); } else { CallerFrame(s, c, a); }
    hide Pending, Ownership, MarkIn;
  }

  lemma LoopKeepsTrunc(s: State, w: nat, a: LoopAction, id: FileID)
    requires TruncOk(s, id) && LoopEnabled(s, w, a)
    ensures TruncOk(LoopNext(s, w, a), id)
  {
    hide Count;
    CountUpdate(NotYetOut(id), s.workers, w, LoopNext(s, w, a).workers[w]);
    if a.Receive? { CountFirst(IsFor(id), s.queue); }
  }

  lemma FetchKeepsTrunc(s: State, w: nat, a: FetchAction, id: FileID)
    requires TruncOk(s, id) && FetchEnabled(s, w, a)
    ensures TruncOk(FetchNext(s, w, a), id)
  {
    hide Count, FetchOrig;
    CountUpdate(NotYetOut(id), s.workers, w, FetchNext(s, w, a).workers[w]);
  }

  /** Opening the file counts as a truncation if it is there; then the mark was stale or blind. */
  lemma OutputKeepsThisTrunc(s: State, w: nat, a: OutputAction)
    requires Ownership(s) && OutputEnabled(s, w, a) && TruncOk(s, s.workers[w].task.thumb)
    ensures TruncOk(OutputNext(s, w, a), s.workers[w].task.thumb)
  {
    var id, t := s.workers[w].task.thumb, OutputNext(s, w, a);
    WorkKeepsOwnership(s, t, w);
    NonePending(t, w);
    if s.workers[w].Opened? { CountHas(NotYetOut(id), s.workers, w); }
    hide Count, Ownership, Holds, MarksId, IsFor, NotYetOut;
  }

  lemma OtherTruncations(o: Outputs, a: OutputAction, t: Task, misread: bool, id: FileID)
    requires id != t.thumb
    ensures var p := OutputOut(o, a, t, misread);
            Look(p.files, id) == Look(o.files, id) && At(p.truncations, id) == At(o.truncations, id)
  {}

  lemma OutputKeepsTrunc(s: State, w: nat, a: OutputAction, id: FileID)
    requires Ownership(s) && TruncOk(s, id) && OutputEnabled(s, w, a)
    ensures TruncOk(OutputNext(s, w, a), id)
  {
    if id == s.workers[w].task.thumb {
      OutputKeepsThisTrunc(s, w, a);
    } else {
      OutputFrame(s, w, a);
      OtherTruncations(s.out, a, s.workers[w].task, w in s.orig.misread, id);
      OutputPending(s, w, a, id);
      hide Pending, OutputOut, Ownership;
    }
  }

  lemma EnvKeepsTrunc(s: State, a: EnvAction, id: FileID)
    requires TruncOk(s, id) && EnvEnabled(s, a)
    ensures TruncOk(EnvNext(s, a), id)
  {
    hide Count;
    if a.Drain? {
      CountFirst(IsFor(id), s.queue);
      CountAppend(IsFor(id), s.drained, s.queue[0]);
    }
  }

  lemma RestartKeepsTrunc(s: State, id: FileID)
    requires TruncOk(s, id)
    ensures TruncOk(RestartNext(s), id)
  {
    var t := RestartNext(s);
    CountNone(MarksId(id), t.callers);
    CountNone(NotYetOut(id), t.workers);
  }

  lemma CallerKeepsTorn(s: State, c: nat, a: CallerAction)
    requires TornOk(s.callers, s.torn, s.out) && CallerEnabled(s, c, a)
    ensures var t := CallerNext(s, c, a); TornOk(t.callers, t.torn, t.out)
  {
    CallerTorn(s, c, a);
    hide MarkIn, CallerNext, CallerEnabled;
  }

  /** A call that returns has an untorn file. */
  lemma CallerTorn(s: State, c: nat, a: CallerAction)
    requires CallerEnabled(s, c, a)
    ensures c < |s.callers|
    ensures var t := CallerNext(s, c, a);
            && t.out.truncations == s.out.truncations && (t.torn == s.torn || t.torn == s.torn - {c})
            && if a.SendOnClosed? then t.callers == s.callers && t.torn == s.torn
               else t.callers == s.callers[c := t.callers[c]] && (t.callers[c].Returned? ==> c !in t.torn)
  {
    if a.Mark? { MarkInAt(s.out, s.callers[c].task, s.callers[c].absent, s.callers[c].task.thumb); }
    hide MarkIn;
  }

  lemma OutputKeepsTorn(s: State, w: nat, a: OutputAction)
    requires TornOk(s.callers, s.torn, s.out) && OutputEnabled(s, w, a)
    ensures var t := OutputNext(s, w, a); TornOk(t.callers, t.torn, t.out)
  {
    TruncationsGrow(s.out, a, s.workers[w].task, w in s.orig.misread);
    hide OutputOut;
  }

  lemma TruncationsGrow(o: Outputs, a: OutputAction, t: Task, misread: bool)
    ensures var p := OutputOut(o, a, t, misread); forall id :: At(p.truncations, id) >= At(o.truncations, id)
    ensures Tears(a) != {} && !Look(o.files, t.thumb).Absent? ==>
            At(OutputOut(o, a, t, misread).truncations, t.thumb) > 0
  {}

  lemma TornKept(s: State, step: Step)
    requires TornOk(s.callers, s.torn, s.out) && Enabled(s, step)
    ensures var t := Next(s, step); TornOk(t.callers, t.torn, t.out)
  {
    hide CallerNext, OutputNext, FetchOrig, IncAll;
    match step
    case Call(c, a) => CallerKeepsTorn(s, c, a);
    case Output(w, a) => OutputKeepsTorn(s, w, a);
    case _ =>
  }

  lemma ReadersKept(s: State, step: Step)
    requires Ownership(s) && ReadersOk(s) && Enabled(s, step)
    ensures ReadersOk(Next(s, step))
  {
    TornKept(s, step);
    hide TruncOk, TornOk, Ownership, CallerNext, LoopNext, FetchNext, OutputNext, EnvNext, RestartNext;
    forall id ensures TruncOk(Next(s, step), id) {
      match step
      case Call(c, a) => CallerKeepsTrunc(s, c, a, id);
      case Loop(w, a) => LoopKeepsTrunc(s, w, a, id);
      case Fetch(w, a) => FetchKeepsTrunc(s, w, a, id);
      case Output(w, a) => OutputKeepsTrunc(s, w, a, id);
      case Env(a) => EnvKeepsTrunc(s, a, id);
      case Restart => RestartKeepsTrunc(s, id);
    }
  }

  // ------------------------------------------------------------------ shutdown

  /** Tasks are drained, and workers exit, only after the channel is closed; workers exit only when it is empty; and it
      never holds more than its buffer. */
  ghost predicate ShutdownOk(s: State) {
    && (s.closed ==> s.stopped) && (s.drained != [] ==> s.closed) && |s.queue| <= 10_000
    && forall w :: 0 <= w < |s.workers| && s.workers[w].Exited? ==> s.closed && s.queue == []
  }

  lemma CallerKeepsShutdown(s: State, c: nat, a: CallerAction)
    requires ShutdownOk(s) && CallerEnabled(s, c, a)
    ensures ShutdownOk(CallerNext(s, c, a))
  {}

  lemma LoopKeepsShutdown(s: State, w: nat, a: LoopAction)
    requires ShutdownOk(s) && LoopEnabled(s, w, a)
    ensures ShutdownOk(LoopNext(s, w, a))
  {}

  lemma FetchKeepsShutdown(s: State, w: nat, a: FetchAction)
    requires ShutdownOk(s) && FetchEnabled(s, w, a)
    ensures ShutdownOk(FetchNext(s, w, a))
  {
    hide FetchOrig;
  }

  lemma OutputKeepsShutdown(s: State, w: nat, a: OutputAction)
    requires ShutdownOk(s) && OutputEnabled(s, w, a)
    ensures ShutdownOk(OutputNext(s, w, a))
  {}

  lemma EnvKeepsShutdown(s: State, a: EnvAction)
    requires ShutdownOk(s) && EnvEnabled(s, a)
    ensures ShutdownOk(EnvNext(s, a))
  {}

  lemma RestartKeepsShutdown(s: State)
    ensures ShutdownOk(RestartNext(s))
  {}

  lemma ShutdownKept(s: State, step: Step)
    requires ShutdownOk(s) && Enabled(s, step)
    ensures ShutdownOk(Next(s, step))
  {
    hide ShutdownOk, FetchNext, OutputNext, EnvNext, CallerNext, LoopNext, RestartNext;
    match step
    case Call(c, a) => CallerKeepsShutdown(s, c, a);
    case Loop(w, a) => LoopKeepsShutdown(s, w, a);
    case Fetch(w, a) => FetchKeepsShutdown(s, w, a);
    case Output(w, a) => OutputKeepsShutdown(s, w, a);
    case Env(a) => EnvKeepsShutdown(s, a);
    case Restart => RestartKeepsShutdown(s);
  }

  // ------------------------------------------------------------------ all runs

  ghost predicate Inv(s: State) {
    Ownership(s) && OriginalsOk(s.workers, s.orig) && ThumbsOk(s) && GivenOk(s.callers, s.out) && SpoiledOk(s)
    && WaitsOk(s) && MarksOk(s) && ReadersOk(s) && ShutdownOk(s)
  }

  lemma InitInv(callers: nat, workers: nat)
    ensures Inv(Init(callers, workers))
  {
    var s := Init(callers, workers);
    forall id ensures Owners(s, id) == 0 && Pending(s, id) == 0 {
      CountNone(MarksId(id), s.callers);
      CountNone(Holds(id), s.workers);
      CountNone(NotYetOut(id), s.workers);
    }
  }

  lemma InvKept(s: State, step: Step)
    requires Inv(s) && Enabled(s, step)
    ensures Inv(Next(s, step))
  {
    hide Ownership, OriginalsOk, GivenOk, SpoiledOk, WaitsOk, MarksOk, ReadersOk, TasksMarked, ThumbOk, ShutdownOk,
      Enabled, Next;
    OwnershipKept(s, step);
    OriginalsKept(s, step);
    ThumbsKept(s, step);
    GivenKept(s, step);
    SpoiledKept(s, step);
    WaitsKept(s, step);
    MarksKept(s, step);
    ReadersKept(s, step);
    ShutdownKept(s, step);
  }

  lemma {:induction false} RunsKeepInv(s: State, steps: seq<Step>, t: State)
    requires Inv(s) && Reaches(s, steps, t)
    ensures Inv(t)
    decreases |steps|
  {
    hide Inv, Enabled, Next;
    if |steps| > 0 {
      InvKept(s, steps[0]);
      RunsKeepInv(Next(s, steps[0]), steps[1..], t);
    }
  }

  /** Some run of the service with these many callers and workers leads to `s`. */
  ghost predicate Reachable(callers: nat, workers: nat, s: State) {
    exists steps :: Reaches(Init(callers, workers), steps, s)
  }

  lemma ReachableInv(callers: nat, workers: nat, s: State)
    requires Reachable(callers, workers, s)
    ensures Inv(s)
  {
    hide Inv;
    InitInv(callers, workers);
    var steps :| Reaches(Init(callers, workers), steps, s);
    RunsKeepInv(Init(callers, workers), steps, s);
  }

  /** In every run the set of tasks in progress is the disjoint union of the ids marked but not sent, those in the
      queue, those held by a worker and, after shutdown, those drained; so no two workers have the same thumbnail. */
  lemma OneLiveTask(callers: nat, workers: nat, s: State, id: FileID)
    requires Reachable(callers, workers, s)
    ensures Count(MarksId(id), s.callers) + Count(IsFor(id), s.queue) + Count(Holds(id), s.workers)
            + (if s.closed then Count(IsFor(id), s.drained) else 0) == One(id in s.inProgress)
    ensures forall v, w :: 0 <= v < w < |s.workers| && s.workers[v].HasTask() && s.workers[w].HasTask()
              ==> s.workers[v].task.thumb != s.workers[w].task.thumb
  {
    ReachableInv(callers, workers, s);
    assert Owners(s, id) == One(id in s.inProgress);
    forall v, w | 0 <= v < w < |s.workers| && s.workers[v].HasTask() && s.workers[w].HasTask()
      ensures s.workers[v].task.thumb != s.workers[w].task.thumb
    {
      if s.workers[v].task.thumb == s.workers[w].task.thumb {
        var other := s.workers[v].task.thumb;
        assert Owners(s, other) == One(other in s.inProgress);
        CountHasBoth(Holds(other), s.workers, v, w);
      }
    }
  }

  /** In every run at most one worker at a time is inside openImage for a file, so at most one download of it is in
      flight; downloads beyond the first are paid for by evictions, failures or errors of opening the cached file; and
      outside the section the cached original is absent or whole, if and only if its last write did not fail, together
      with the clean-up after it, and was not cut off. */
  lemma OneDownload(callers: nat, workers: nat, s: State, f: FileID)
    requires Reachable(callers, workers, s)
    ensures forall v, w :: 0 <= v < w < |s.workers| && s.workers[v].HoldsLock() && s.workers[w].HoldsLock()
              ==> s.workers[v].task.file != s.workers[w].task.file
    ensures At(s.orig.downloads, f) <= 1 + At(s.orig.evictions, f) + At(s.orig.failures, f) + At(s.orig.openErrors, f)
    ensures f !in s.orig.locks ==>
              var e := Look(s.orig.files, f); e.Absent? || e == if f in s.orig.stuck then Partial else Whole(f)
  {
    ReachableInv(callers, workers, s);
    assert OriginalOk(s.workers, s.orig, f);
  }

  /** In every run a worker that opens the cached original reads the whole of it, or is marked as reading an incomplete
      one; the latter exactly if the last write of the original left it so. */
  lemma OpensWholeExactly(callers: nat, workers: nat, s: State, w: nat, a: FetchAction)
    requires Reachable(callers, workers, s) && FetchEnabled(s, w, a) && (a.Found? || a.Reopened?)
    ensures var f, t := s.workers[w].task.file, FetchNext(s, w, a);
            && (w !in t.orig.misread <==> Look(s.orig.files, f) == Whole(f))
            && (w in t.orig.misread <==> f in s.orig.stuck)
  {
    ReachableInv(callers, workers, s);
    assert OriginalOk(s.workers, s.orig, s.workers[w].task.file);
  }

  /** In every run, whatever the id: its cache file is incomplete if and only if it is there and some worker is
      writing it, or the last write was a copy that ended short, a resize whose file could not be removed, or cut off
      by a restart. A complete file is made from the whole original of a file that the thumbnail was requested for; or
      from an incomplete one, and then of a RAW image, and after a write of the original that failed or an error of
      opening it. */
  lemma PartialExactly(callers: nat, workers: nat, s: State, id: FileID)
    requires Reachable(callers, workers, s)
    ensures var e := Look(s.out.files, id);
            && (e.Partial? <==> !e.Absent? && (BeingWrittenOut(s.workers, id) || LeftBroken(s.out, id)))
            && (e.Whole? ==> MadeFrom(s.out, id, e.of))
            && (e.Spoiled? ==> MadeOfRaw(s.out, id, e.of) && Troubled(s.orig, e.of))
  {
    ReachableInv(callers, workers, s);
    assert ThumbOk(s.workers, s.out, id);
    assert Excused(s.orig, s.out, id, Look(s.out.files, id));
  }

  /** In every run, a call that reads the cache is handed the file that is there, and an incomplete one exactly under
      this condition, as the file is at that moment. */
  lemma CallersSeePartialExactly(callers: nat, workers: nat, s: State, c: nat, a: CallerAction)
    requires Reachable(callers, workers, s) && CallerEnabled(s, c, a) && (a.Hit? || a.Reopen?)
    ensures var id := s.callers[c].task.thumb;
            CallerNext(s, c, a).callers[c] == Returned(s.callers[c].task, Partial) <==>
              !Look(s.out.files, id).Absent? && (BeingWrittenOut(s.workers, id) || LeftBroken(s.out, id))
    ensures CallerNext(s, c, a).callers[c] == Returned(s.callers[c].task, Look(s.out.files, s.callers[c].task.thumb))
    ensures c !in CallerNext(s, c, a).torn
  {
    hide BeingWrittenOut, LeftBroken;
    PartialExactly(callers, workers, s, s.callers[c].task.thumb);
  }

  /** In every run, the file of a thumbnail is truncated while it is there at most as often as it was marked while it
      was there; so what a call was given is truncated under it only if the thumbnail was marked at least twice, and
      once by a call that had looked into the cache before, or could not open the file. */
  lemma TornOnlyByRepeatedMarks(callers: nat, workers: nat, s: State, id: FileID)
    requires Reachable(callers, workers, s)
    ensures At(s.out.truncations, id) <= At(s.out.stale, id) + At(s.out.blind, id)
    ensures forall c :: c in s.torn && c < |s.callers| && s.callers[c].Returned? && s.callers[c].task.thumb == id ==>
              At(s.out.truncations, id) > 0 && At(s.out.marks, id) > 1
  {
    ReachableInv(callers, workers, s);
    hide Ownership, OriginalsOk, ThumbsOk, GivenOk, SpoiledOk, WaitsOk, ShutdownOk, Pending;
    assert TruncOk(s, id) && MarkOk(s, id);
  }

  /** In every run a thumbnail id at rest, that is one not in progress, has in the cache nothing, or a thumbnail made
      from the whole original of a requested file, or one of a RAW image made from an incomplete original, or what a
      short copy, a failed removal or a restart left; the last only after a failure. */
  lemma AtRest(callers: nat, workers: nat, s: State, id: FileID)
    requires Reachable(callers, workers, s) && id !in s.inProgress
    ensures var e := Look(s.out.files, id);
            && (e.Partial? <==> !e.Absent? && LeftBroken(s.out, id))
            && (e.Whole? ==> MadeFrom(s.out, id, e.of))
            && (e.Spoiled? ==> MadeOfRaw(s.out, id, e.of) && Troubled(s.orig, e.of))
    ensures LeftBroken(s.out, id) ==> At(s.out.failures, id) > 0
    ensures id in s.out.short ==> CopiedTo(s.out, id)
  {
    PartialExactly(callers, workers, s, id);
    ReachableInv(callers, workers, s);
    assert ThumbOk(s.workers, s.out, id);
    if BeingWrittenOut(s.workers, id) { WritersInProgress(s, id); }
  }

  /** In every run a thumbnail id at rest, that no task asked to copy an original to, and that no failed removal or
      restart left behind, has in the cache nothing or a complete resized output for a requested file; and it was made
      from the whole original, unless the file is RAW and there was trouble with its original. */
  lemma ResizedIsAbsentOrWhole(callers: nat, workers: nat, s: State, id: FileID)
    requires Reachable(callers, workers, s)
    requires id !in s.inProgress && id !in s.out.stuck && !CopiedTo(s.out, id)
    ensures var e := Look(s.out.files, id);
            || e.Absent? || (e.Whole? && MadeFrom(s.out, id, e.of))
            || (e.Spoiled? && MadeOfRaw(s.out, id, e.of) && Troubled(s.orig, e.of))
  {
    AtRest(callers, workers, s, id);
  }

  /** In every run of an open service, a call that has marked its task waits to send it exactly while the channel holds
      ten thousand tasks, and it never holds more. */
  lemma BlockedExactlyWhenFull(callers: nat, workers: nat, s: State, c: nat)
    requires Reachable(callers, workers, s) && c < |s.callers| && s.callers[c].Marked? && !s.closed
    ensures CallerEnabled(s, c, Send) <==> |s.queue| != 10_000
    ensures |s.queue| <= 10_000
  {
    ReachableInv(callers, workers, s);
    hide Ownership, OriginalsOk, ThumbsOk, GivenOk, SpoiledOk, WaitsOk, MarksOk, ReadersOk;
  }

  /** A call that left the polling loop without an error of its context saw at least one task for its thumbnail end
      after it had joined or marked it. */
  lemma PollersSawAFinish(callers: nat, workers: nat, s: State, c: nat)
    requires Reachable(callers, workers, s) && c < |s.callers| && s.callers[c].Reopening?
    ensures At(s.out.finished, s.callers[c].task.thumb) > s.callers[c].seen
  {
    ReachableInv(callers, workers, s);
    assert WaitOk(s.callers[c], s.inProgress, s.out.finished);
  }

  /** While nothing is evicted and nothing fails, every call that marks a thumbnail after the first either looked into
      the cache before it was there, or could not open it: the number of tasks is one more than the number of these
      calls. */
  lemma OnlyStaleLooksGenerateAgain(callers: nat, workers: nat, s: State, id: FileID)
    requires Reachable(callers, workers, s)
    requires At(s.out.evictions, id) == 0 && At(s.out.failures, id) == 0 && At(s.out.marks, id) > 0
    ensures At(s.out.marks, id) == 1 + At(s.out.stale, id) + At(s.out.blind, id)
  {
    ReachableInv(callers, workers, s);
    assert MarkOk(s, id);
  }
}
