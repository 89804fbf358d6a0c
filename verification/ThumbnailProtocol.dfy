/** Thumbnail generation as an interleaved step system: OpenThumbnail, startWorkers, processTask, openImage and
    Shutdown of thumbnails/service.go, over the file operations of pkg/cache/disk.go and an evicting cleaner.

    One step is one section under a lock, one channel operation, one cache operation, or the end of one foreign
    operation (a download, a copy, a resize), which succeeds or fails as it likes; or the end of the process at any
    point and its next start, with the files that it left. */
module ThumbnailProtocol {
  import opened ThumbnailNames

  // ------------------------------------------------------------------ state

  /** A cache file: missing; created but not completely written; whole, and for a thumbnail made from a whole original;
      or a complete thumbnail made from an original that was read incompletely. */
  datatype Entry = Absent | Partial | Whole(of: FileID) | Spoiled(of: FileID)
  {
    predicate IsComplete() {
      Whole? || Spoiled?
    }
  }

  /** `raw` tells whether the file is a RAW image, whose size is not checked. */
  datatype Task = Task(file: FileID, thumb: FileID, useOriginal: bool, raw: bool)

  /** Where a call of OpenThumbnail is.  `seen` is the number of finished tasks for its thumbnail when it looked at
      the set of tasks in progress; a call that returned got a reader of `got`, or nothing.  A call that
      missed the cache knows whether the file was `absent`, or there but could not be opened. */
  datatype Caller = Outside | Checked(task: Task) | Missed(task: Task, absent: bool) | Marked(task: Task, seen: nat)
                  | Polling(task: Task, seen: nat) | Reopening(task: Task, seen: nat) | Returned(task: Task, got: Entry)

  /** Where a worker is with its task; from `Locked` to `Written` it is inside openImage, under the file's lock. */
  datatype Worker = Idle | Exited | Taken(task: Task) | Locked(task: Task) | Downloading(task: Task)
                  | Writing(task: Task) | Written(task: Task) | Opened(task: Task) | Copying(task: Task)
                  | Resizing(task: Task) | Finished(task: Task)
  {
    predicate HasTask() {
      !Idle? && !Exited?
    }

    predicate HoldsLock() {
      Locked? || Downloading? || Writing? || Written?
    }

    /** The worker reads the original from its cache file; for a resize it does so before it starts the command. */
    predicate IsReading() {
      Opened? || Copying?
    }

    /** The task is writing the thumbnail's cache file. */
    predicate IsWritingOut() {
      Copying? || Resizing?
    }

    /** The task has not touched the thumbnail's cache file yet. */
    predicate BeforeOutput() {
      Taken? || HoldsLock() || Opened?
    }
  }

  type Files = map<FileID, Entry>
  type Counter = map<FileID, nat>

  /** The cache of original images, the locks of openImage, and what has happened to each original so far.  A file is
      in `stuck` if its last write failed, and the removal of what was written too, or if a restart cut it off.  A
      worker in `misread` reads, or has read for the task it has, an original that was incomplete. */
  datatype Originals = Originals(files: Files, locks: map<FileID, nat>, downloads: Counter, failures: Counter,
                                 openErrors: Counter, evictions: Counter, stuck: set<FileID>, misread: set<nat>)

  /** The thumbnail cache, the tasks ever marked, and what has happened to each thumbnail so far.  Of the marks made
      while the file is there, `stale` counts those of calls that looked before it was there, and `blind` those of
      calls that could not open it; `truncations` counts how often the file was opened for writing while it was there.
      An id is in `short` if the last write of its file was a copy that ended short, and in `stuck` if it was a
      resize that failed and the removal of its file failed too, or if a restart cut it off. */
  datatype Outputs = Outputs(files: Files, marked: set<Task>, marks: Counter, stale: Counter, blind: Counter,
                             finished: Counter, failures: Counter, evictions: Counter, truncations: Counter,
                             short: set<FileID>, stuck: set<FileID>)

  /** A call in `torn` was given a thumbnail whose file was truncated after that, so it may read less than was there. */
  datatype State = State(callers: seq<Caller>, workers: seq<Worker>, queue: seq<Task>, inProgress: set<FileID>,
                         drained: seq<Task>, orig: Originals, out: Outputs, torn: set<nat>, stopped: bool, closed: bool,
                         panicked: bool)

  /** The buffer of the task channel. */
  const CAPACITY: nat := 10_000

  function Look(m: Files, id: FileID): Entry {
    if id in m then m[id] else Absent
  }

  function At(m: Counter, id: FileID): nat {
    if id in m then m[id] else 0
  }

  function Inc(m: Counter, id: FileID): Counter {
    m[id := At(m, id) + 1]
  }

  /** One more for each of the ids. */
  function IncAll(m: Counter, ids: set<FileID>): Counter {
    map id | id in m.Keys + ids :: At(m, id) + if id in ids then 1 else 0
  }

  function Init(callers: nat, workers: nat): State {
    State(seq(callers, _ => Outside), seq(workers, _ => Idle), [], {}, [],
          Originals(map[], map[], map[], map[], map[], map[], {}, {}),
          Outputs(map[], {}, map[], map[], map[], map[], map[], map[], map[], {}, {}), {}, false, false, false)
  }

  // ------------------------------------------------------------------ steps

  datatype CallerAction = Start(task: Task) | Hit | Miss | Join | Mark | Send | SendOnClosed | Leave | Cancel
                        | Reopen | Again

  /** The loop of a worker: take a task from the channel, and remove its id when it is processed. */
  datatype LoopAction = Receive | Exit | Unmark

  /** openImage, with the writing of the original image into its cache.  A file that is there but could not be opened is
      truncated in place, which `breaks` the reading of workers that have it open, and completing it again `heals` that
      of others. */
  datatype FetchAction = NoPath | LockImage | Found | Download | OpenFails | FetchFails | Create(breaks: set<nat>)
                       | WriteOk(heals: set<nat>) | WriteFails(cleaned: bool) | Reopened | ReopenFails

  /** The rest of processTask: copying or resizing into the thumbnail's cache file.  A file that is there is truncated
      in place, which `tears` it from calls that have it open. */
  datatype OutputAction = NoOutput | CreateCopy(tears: set<nat>) | CopyOk | CopyShort
                        | StartResize(tears: set<nat>) | ResizeOk(rewritten: bool) | ResizeFails(removed: bool)

  datatype EnvAction = Stop | Close | Drain | Evict(id: FileID) | EvictOriginal(id: FileID)

  datatype Step = Call(c: nat, ca: CallerAction) | Loop(w: nat, la: LoopAction) | Fetch(w: nat, fa: FetchAction)
                | Output(w: nat, oa: OutputAction) | Env(ea: EnvAction) | Restart

  predicate CallerEnabled(s: State, c: nat, a: CallerAction) {
    c < |s.callers| &&
    match (a, s.callers[c])
    case (Start(_), Outside) => !s.stopped
    case (Hit, Checked(t)) => !Look(s.out.files, t.thumb).Absent?
    case (Miss, Checked(_)) => true
    case (Join, Missed(t, _)) => t.thumb in s.inProgress
    case (Mark, Missed(t, _)) => t.thumb !in s.inProgress
    case (Send, Marked(_, _)) => |s.queue| < CAPACITY && !s.closed
    case (SendOnClosed, Marked(_, _)) => s.closed
    case (Leave, Polling(t, _)) => t.thumb !in s.inProgress
    case (Cancel, Polling(t, _)) => t.thumb in s.inProgress
    case (Reopen, Reopening(_, _)) => true
    case (Again, Returned(_, _)) => true
    case _ => false
  }

  /** A call returns what the cache holds for its thumbnail. */
  function CacheRead(s: State, t: Task): Caller {
    Returned(t, Look(s.out.files, t.thumb))
  }

  function CallerNext(s: State, c: nat, a: CallerAction): State
    requires CallerEnabled(s, c, a)
  {
    match a
    case Start(t) => s.(callers := s.callers[c := Checked(t)])
    case Hit => s.(callers := s.callers[c := CacheRead(s, s.callers[c].task)], torn := s.torn - {c})
    case Miss =>
      var t := s.callers[c].task;
      s.(callers := s.callers[c := Missed(t, Look(s.out.files, t.thumb).Absent?)])
    case Join =>
      var t := s.callers[c].task;
      s.(callers := s.callers[c := Polling(t, At(s.out.finished, t.thumb))])
    case Mark =>
      var t := s.callers[c].task;
      s.(callers := s.callers[c := Marked(t, At(s.out.finished, t.thumb))],
         inProgress := s.inProgress + {t.thumb}, out := MarkIn(s.out, t, s.callers[c].absent))
    case Send =>
      var m := s.callers[c];
      s.(callers := s.callers[c := Polling(m.task, m.seen)], queue := s.queue + [m.task])
    case SendOnClosed => s.(panicked := true)
    case Leave =>
      var p := s.callers[c];
      s.(callers := s.callers[c := Reopening(p.task, p.seen)])
    case Cancel => s.(callers := s.callers[c := Returned(s.callers[c].task, Absent)], torn := s.torn - {c})
    case Reopen => s.(callers := s.callers[c := CacheRead(s, s.callers[c].task)], torn := s.torn - {c})
    case Again => s.(callers := s.callers[c := Outside])
  }

  /** A call that saw the thumbnail to be `absent`, or could not open it, marks it. */
  function MarkIn(o: Outputs, t: Task, absent: bool): Outputs {
    var present := !Look(o.files, t.thumb).Absent?;
    o.(marked := o.marked + {t}, marks := Inc(o.marks, t.thumb),
       stale := if present && absent then Inc(o.stale, t.thumb) else o.stale,
       blind := if present && !absent then Inc(o.blind, t.thumb) else o.blind)
  }

  predicate LoopEnabled(s: State, w: nat, a: LoopAction) {
    w < |s.workers| &&
    match (a, s.workers[w])
    case (Receive, Idle) => s.queue != []
    case (Exit, Idle) => s.closed && s.queue == []
    case (Unmark, Finished(_)) => true
    case _ => false
  }

  function LoopNext(s: State, w: nat, a: LoopAction): State
    requires LoopEnabled(s, w, a)
  {
    match a
    case Receive => s.(workers := s.workers[w := Taken(s.queue[0])], queue := s.queue[1..])
    case Exit => s.(workers := s.workers[w := Exited])
    case Unmark =>
      var id := s.workers[w].task.thumb;
      s.(workers := s.workers[w := Idle], inProgress := s.inProgress - {id},
         out := s.out.(finished := Inc(s.out.finished, id)))
  }

  /** The workers all have this original open. */
  predicate AllRead(workers: seq<Worker>, ws: set<nat>, f: FileID) {
    forall v :: v in ws ==> v < |workers| && workers[v].IsReading() && workers[v].task.file == f
  }

  predicate FetchEnabled(s: State, w: nat, a: FetchAction) {
    w < |s.workers| &&
    match (a, s.workers[w])
    case (NoPath, Taken(_)) => true
    case (LockImage, Taken(t)) => t.file !in s.orig.locks
    case (Found, Locked(t)) => !Look(s.orig.files, t.file).Absent?
    case (Download, Locked(t)) => Look(s.orig.files, t.file).Absent?
    case (OpenFails, Locked(t)) => !Look(s.orig.files, t.file).Absent?
    case (FetchFails, Downloading(_)) => true
    case (Create(breaks), Downloading(t)) =>
      AllRead(s.workers, breaks, t.file) && (Look(s.orig.files, t.file).Absent? ==> breaks == {})
    case (WriteOk(heals), Writing(t)) => AllRead(s.workers, heals, t.file)
    case (WriteFails(_), Writing(_)) => true
    case (Reopened, Written(t)) => !Look(s.orig.files, t.file).Absent?
    case (ReopenFails, Written(_)) => true
    case _ => false
  }

  /** Where the worker is afterwards. */
  function FetchWorker(a: FetchAction, t: Task): Worker {
    match a
    case LockImage => Locked(t)
    case Download => Downloading(t)
    case OpenFails => Downloading(t)
    case Create(_) => Writing(t)
    case WriteOk(_) => Written(t)
    case Found => Opened(t)
    case Reopened => Opened(t)
    case _ => Finished(t)
  }

  /** A file that is completely written is whole, unless it was removed while it was being written. */
  function Completed(e: Entry, of: FileID): Entry {
    if e.Absent? then Absent else Whole(of)
  }

  /** A worker that opens the cached original starts to read what is there. */
  function OpenedBy(o: Originals, w: nat, f: FileID): Originals {
    o.(locks := o.locks - {f}, misread := if Look(o.files, f).Partial? then o.misread + {w} else o.misread - {w})
  }

  /** What the action does to the originals, for the file `f` of worker `w`. */
  function FetchOrig(o: Originals, w: nat, a: FetchAction, f: FileID): Originals {
    match a
    case NoPath => o
    case LockImage => o.(locks := o.locks[f := w])
    case Found => OpenedBy(o, w, f)
    case Download => o.(downloads := Inc(o.downloads, f))
    case OpenFails => o.(downloads := Inc(o.downloads, f), openErrors := Inc(o.openErrors, f))
    case FetchFails => o.(locks := o.locks - {f}, failures := Inc(o.failures, f))
    case Create(breaks) => o.(files := o.files[f := Partial], stuck := o.stuck - {f}, misread := o.misread + breaks)
    case WriteOk(heals) => o.(files := o.files[f := Completed(Look(o.files, f), f)], misread := o.misread - heals)
    case WriteFails(cleaned) =>
      o.(locks := o.locks - {f}, failures := Inc(o.failures, f),
         files := o.files[f := if cleaned then Absent else Look(o.files, f)],
         stuck := if cleaned || Look(o.files, f).Absent? then o.stuck else o.stuck + {f})
    case Reopened => OpenedBy(o, w, f)
    case ReopenFails => o.(locks := o.locks - {f})
  }

  function FetchNext(s: State, w: nat, a: FetchAction): State
    requires FetchEnabled(s, w, a)
  {
    var t := s.workers[w].task;
    var x := FetchWorker(a, t);
    s.(workers := s.workers[w := x], orig := FetchOrig(s.orig, w, a, t.file),
       out := if x.Finished? then s.out.(failures := Inc(s.out.failures, t.thumb)) else s.out)
  }

  /** The action can follow where the worker is.  A task that read its original incompletely fails when the size is
      checked, which a copy always does and a resize unless the image is RAW. */
  predicate OutputFollows(a: OutputAction, w: Worker, misread: bool) {
    match (a, w)
    case (NoOutput, Opened(_)) => true
    case (CreateCopy(_), Opened(t)) => t.useOriginal
    case (CopyOk, Copying(_)) => !misread
    case (CopyShort, Copying(_)) => true
    case (StartResize(_), Opened(t)) => !t.useOriginal && (misread ==> t.raw)
    case (ResizeOk(_), Resizing(_)) => true
    case (ResizeFails(_), Resizing(_)) => true
    case _ => false
  }

  /** The calls whose open thumbnail the action truncates. */
  function Tears(a: OutputAction): set<nat> {
    match a
    case CreateCopy(tears) => tears
    case StartResize(tears) => tears
    case _ => {}
  }

  /** The calls all have a file of this thumbnail open. */
  predicate AllHave(callers: seq<Caller>, cs: set<nat>, id: FileID) {
    forall c :: c in cs ==>
      c < |callers| && callers[c].Returned? && callers[c].task.thumb == id && !callers[c].got.Absent?
  }

  predicate OutputEnabled(s: State, w: nat, a: OutputAction) {
    && w < |s.workers| && OutputFollows(a, s.workers[w], w in s.orig.misread)
    && (Tears(a) != {} ==>
          AllHave(s.callers, Tears(a), s.workers[w].task.thumb) && !Look(s.out.files, s.workers[w].task.thumb).Absent?)
  }

  function OutputWorker(a: OutputAction, t: Task): Worker {
    match a
    case CreateCopy(_) => Copying(t)
    case StartResize(_) => Resizing(t)
    case _ => Finished(t)
  }

  /** The thumbnail's file is opened for writing. */
  function Opening(o: Outputs, id: FileID): Outputs {
    o.(files := o.files[id := Partial], short := o.short - {id}, stuck := o.stuck - {id},
       truncations := if Look(o.files, id).Absent? then o.truncations else Inc(o.truncations, id))
  }

  /** A complete thumbnail, made from what the worker read. */
  function Made(of: FileID, misread: bool): Entry {
    if misread then Spoiled(of) else Whole(of)
  }

  /** What the action does to the thumbnail.  After a failed resize the file is removed; after a short copy it stays. */
  function OutputOut(o: Outputs, a: OutputAction, t: Task, misread: bool): Outputs {
    var e := Look(o.files, t.thumb);
    match a
    case NoOutput => o.(failures := Inc(o.failures, t.thumb))
    case CreateCopy(_) => Opening(o, t.thumb)
    case CopyOk => o.(files := o.files[t.thumb := Completed(e, t.file)])
    case CopyShort => o.(failures := Inc(o.failures, t.thumb), short := o.short + {t.thumb})
    case StartResize(_) => Opening(o, t.thumb)
    case ResizeOk(rewritten) =>
      o.(files := o.files[t.thumb := if rewritten || !e.Absent? then Made(t.file, misread) else Absent])
    case ResizeFails(removed) =>
      o.(failures := Inc(o.failures, t.thumb), files := o.files[t.thumb := if removed then Absent else e],
         stuck := if removed then o.stuck else o.stuck + {t.thumb})
  }

  function OutputNext(s: State, w: nat, a: OutputAction): State
    requires OutputEnabled(s, w, a)
  {
    var t := s.workers[w].task;
    s.(workers := s.workers[w := OutputWorker(a, t)], out := OutputOut(s.out, a, t, w in s.orig.misread),
       torn := s.torn + Tears(a))
  }

  predicate EnvEnabled(s: State, a: EnvAction) {
    match a
    case Stop => !s.stopped
    case Close => s.stopped && !s.closed
    case Drain => s.closed && s.queue != []
    case Evict(id) => !Look(s.out.files, id).Absent?
    case EvictOriginal(id) => !Look(s.orig.files, id).Absent?
  }

  function EnvNext(s: State, a: EnvAction): State
    requires EnvEnabled(s, a)
  {
    match a
    case Stop => s.(stopped := true)
    case Close => s.(closed := true)
    case Drain => s.(queue := s.queue[1..], drained := s.drained + [s.queue[0]])
    case Evict(id) => s.(out := s.out.(files := s.out.files[id := Absent], evictions := Inc(s.out.evictions, id)))
    case EvictOriginal(id) =>
      s.(orig := s.orig.(files := s.orig.files[id := Absent], evictions := Inc(s.orig.evictions, id)))
  }

  /** The files being written when the process ends stay incomplete; tasks and downloads in progress are lost. */
  function RestartOrig(workers: seq<Worker>, o: Originals): Originals {
    o.(locks := map[], misread := {}, failures := IncAll(o.failures, o.locks.Keys),
       stuck := o.stuck + set w | 0 <= w < |workers| && workers[w].Writing? :: workers[w].task.file)
  }

  function RestartOut(workers: seq<Worker>, inProgress: set<FileID>, o: Outputs): Outputs {
    o.(failures := IncAll(o.failures, inProgress),
       stuck := o.stuck + set w | 0 <= w < |workers| && workers[w].IsWritingOut() :: workers[w].task.thumb)
  }

  /** The process ends at any time, and starts again with the files that are there. */
  function RestartNext(s: State): State {
    State(seq(|s.callers|, _ => Outside), seq(|s.workers|, _ => Idle), [], {}, [],
          RestartOrig(s.workers, s.orig), RestartOut(s.workers, s.inProgress, s.out), {}, false, false, false)
  }

  predicate Enabled(s: State, step: Step) {
    match step
    case Call(c, a) => CallerEnabled(s, c, a)
    case Loop(w, a) => LoopEnabled(s, w, a)
    case Fetch(w, a) => FetchEnabled(s, w, a)
    case Output(w, a) => OutputEnabled(s, w, a)
    case Env(a) => EnvEnabled(s, a)
    case Restart => true
  }

  function Next(s: State, step: Step): State
    requires Enabled(s, step)
  {
    match step
    case Call(c, a) => CallerNext(s, c, a)
    case Loop(w, a) => LoopNext(s, w, a)
    case Fetch(w, a) => FetchNext(s, w, a)
    case Output(w, a) => OutputNext(s, w, a)
    case Env(a) => EnvNext(s, a)
    case Restart => RestartNext(s)
  }

  /** The run of these steps leads from `s` to `t`. */
  predicate Reaches(s: State, steps: seq<Step>, t: State)
    decreases |steps|
  {
    if steps == [] then s == t
    else Enabled(s, steps[0]) && Reaches(Next(s, steps[0]), steps[1..], t)
  }
}
