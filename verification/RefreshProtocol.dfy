/** Concurrent refreshes of the search index: RefreshIndex and saveIndexToCache of search/service.go called by the
    background loop and by requests at once, with restarts of the process in between. */
module RefreshProtocol {
  import opened Wrappers
  import opened Entries
  import opened Scoring

  /** A complete index over one listing, as the constructor made it at a time. */
  datatype Index = Index(list: seq<DirEntry>, len: Lengths, createdAt: int)

  /** The index file: missing, truncated or not decodable, or whole. */
  datatype File = Missing | Broken | Full(index: Index)

  /** Where a call of RefreshIndex is.  It is `alone` while no other call has been writing the file since it opened
      it. */
  datatype Refresher = Resting | Built(index: Index) | Saving(index: Index, alone: bool)
                     | Saved(index: Index, alone: bool)

  /** `fetched` are the indexes built from listings of the backend so far, `saved` those whose save reported success,
      and `held` those that the file has held in full at some time; `failed` tells whether the last save to end
      failed. */
  datatype State = State(refreshers: seq<Refresher>, file: File, memory: Option<Index>, started: bool, len: Lengths,
                         fetched: set<Index>, saved: set<Index>, held: set<Index>, failed: bool)

  datatype Step = Fetch(r: nat, list: seq<DirEntry>, now: int) | CreateFails(r: nat) | Create(r: nat)
                | SaveWorks(r: nat, content: File) | SaveFails(r: nat, content: File) | Publish(r: nat)
                | Restart(len: Lengths, broken: bool) | Load | LoadFails

  function Init(refreshers: nat, len: Lengths): State {
    State(seq(refreshers, _ => Resting), Missing, None, false, len, {}, {}, {}, false)
  }

  predicate SomeSaving(rs: seq<Refresher>) {
    exists r :: 0 <= r < |rs| && rs[r].Saving?
  }

  /** What a file can hold after several calls wrote to it: what one of them wrote, or nothing that can be decoded. */
  predicate Possible(s: State, content: File) {
    content.Broken? || (content.Full? && content.index in s.fetched)
  }

  predicate Enabled(s: State, step: Step) {
    match step
    case Fetch(r, _, _) => s.started && r < |s.refreshers| && s.refreshers[r].Resting?
    case CreateFails(r) => r < |s.refreshers| && s.refreshers[r].Built?
    case Create(r) => r < |s.refreshers| && s.refreshers[r].Built?
    case SaveWorks(r, content) => r < |s.refreshers| && s.refreshers[r].Saving?
        && if s.refreshers[r].alone then content == Full(s.refreshers[r].index) else Possible(s, content)
    case SaveFails(r, content) => r < |s.refreshers| && s.refreshers[r].Saving?
        && if s.refreshers[r].alone then content in {Broken, Full(s.refreshers[r].index)} else Possible(s, content)
    case Publish(r) => r < |s.refreshers| && s.refreshers[r].Saved?
    case Restart(_, broken) => broken ==> SomeSaving(s.refreshers)
    case Load => !s.started && s.file.Full? && s.file.index.len == s.len
    case LoadFails => !s.started && !(s.file.Full? && s.file.index.len == s.len)
  }

  function NotAlone(x: Refresher): Refresher {
    match x
    case Saving(i, _) => Saving(i, false)
    case Saved(i, _) => Saved(i, false)
    case _ => x
  }

  /** What the file holds in full. */
  function InFull(content: File): set<Index> {
    if content.Full? then {content.index} else {}
  }

  /** The file is truncated when it is opened, under all other calls. */
  function Opened(rs: seq<Refresher>, r: nat): seq<Refresher>
    requires r < |rs| && rs[r].Built?
  {
    seq(|rs|, i requires 0 <= i < |rs| => NotAlone(rs[i]))[r := Saving(rs[r].index, !SomeSaving(rs))]
  }

  function Next(s: State, step: Step): State
    requires Enabled(s, step)
  {
    match step
    case Fetch(r, list, now) =>
      var i := Index(list, s.len, now);
      s.(refreshers := s.refreshers[r := Built(i)], fetched := s.fetched + {i})
    case CreateFails(r) => s.(refreshers := s.refreshers[r := Resting])
    case Create(r) => s.(refreshers := Opened(s.refreshers, r), file := Broken)
    case SaveWorks(r, content) =>
      var x := s.refreshers[r];
      s.(refreshers := s.refreshers[r := Saved(x.index, x.alone)], file := content, saved := s.saved + {x.index},
         held := s.held + InFull(content), failed := false)
    case SaveFails(r, content) =>
      s.(refreshers := s.refreshers[r := Resting], file := content, held := s.held + InFull(content), failed := true)
    case Publish(r) => s.(refreshers := s.refreshers[r := Resting], memory := Some(s.refreshers[r].index))
    case Restart(len, broken) =>
      s.(refreshers := seq(|s.refreshers|, _ => Resting), file := if broken then Broken else s.file,
         memory := None, started := false, len := len)
    case Load => s.(memory := Some(s.file.index), started := true, failed := false)
    case LoadFails => s.(started := true)
  }

  predicate Reaches(s: State, steps: seq<Step>, t: State)
    decreases |steps|
  {
    if steps == [] then s == t
    else Enabled(s, steps[0]) && Reaches(Next(s, steps[0]), steps[1..], t)
  }

  // ------------------------------------------------------------------ what every step keeps

  /** A call that is alone is the only one writing, and the file is what it made of it. */
  predicate AloneOk(s: State, r: nat)
    requires r < |s.refreshers|
  {
    match s.refreshers[r]
    case Saving(_, true) => s.file.Broken? && forall q :: 0 <= q < |s.refreshers| && s.refreshers[q].Saving? ==> q == r
    case Saved(i, true) => s.file == Full(i) && !SomeSaving(s.refreshers)
    case _ => true
  }

  predicate RefresherOk(s: State, x: Refresher) {
    && (!x.Resting? ==> x.index in s.fetched && x.index.len == s.len)
    && (x.Saved? ==> x.index in s.saved)
  }

  ghost predicate Inv(s: State) {
    && (s.memory.Some? ==> s.memory.value in s.fetched && s.memory.value.len == s.len)
    && (s.file.Full? ==> s.file.index in s.fetched && s.file.index in s.held)
    && (forall r :: 0 <= r < |s.refreshers| ==> RefresherOk(s, s.refreshers[r]))
    && (forall r :: 0 <= r < |s.refreshers| ==> AloneOk(s, r))
  }

  lemma AloneKept(s: State, step: Step)
    requires Inv(s) && Enabled(s, step)
    ensures forall r :: 0 <= r < |Next(s, step).refreshers| ==> AloneOk(Next(s, step), r)
  {
    var t := Next(s, step);
    forall r | 0 <= r < |t.refreshers| ensures AloneOk(t, r) {
      assert AloneOk(s, r);
    }
  }

  lemma InvKept(s: State, step: Step)
    requires Inv(s) && Enabled(s, step)
    ensures Inv(Next(s, step))
  {
    AloneKept(s, step);
    hide AloneOk;
    var t := Next(s, step);
    forall r | 0 <= r < |t.refreshers| ensures RefresherOk(t, t.refreshers[r]) {
      assert RefresherOk(s, s.refreshers[r]);
    }
  }

  lemma {:induction false} RunsKeepInv(s: State, steps: seq<Step>, t: State)
    requires Inv(s) && Reaches(s, steps, t)
    ensures Inv(t)
    decreases |steps|
  {
    hide Inv, Enabled, Next;
    if |steps| > 0 {
      InvKept(s, steps[0]);
      RunsKeepInv(Next(s, steps[0]), steps[1..], t);
    }
  }

  /** The run fetched this listing for an index built at this time. */
  ghost predicate FetchedIn(steps: seq<Step>, i: Index) {
    exists step :: step in steps && step.Fetch? && step.list == i.list && step.now == i.createdAt
  }

  lemma {:induction false} FetchedIsListed(s: State, steps: seq<Step>, t: State, i: Index)
    requires Reaches(s, steps, t) && i in t.fetched && i !in s.fetched
    ensures FetchedIn(steps, i)
    decreases |steps|
  {
    if |steps| > 0 {
      if i in Next(s, steps[0]).fetched {
        assert steps[0] in steps;
      } else {
        FetchedIsListed(Next(s, steps[0]), steps[1..], t, i);
        var step :| step in steps[1..] && step.Fetch? && step.list == i.list && step.now == i.createdAt;
        assert step in steps;
      }
    }
  }

  /** In every run, whatever refreshes, failures of saving and restarts it has, the index that a search reads is a
      complete index, with the lengths of the service, over one listing fetched in the run. */
  lemma SearchesReadOneListing(refreshers: nat, len: Lengths, steps: seq<Step>, s: State)
    requires Reaches(Init(refreshers, len), steps, s)
    ensures s.memory.Some? ==> s.memory.value.len == s.len && FetchedIn(steps, s.memory.value)
  {
    RunsKeepInv(Init(refreshers, len), steps, s);
    if s.memory.Some? {
      FetchedIsListed(Init(refreshers, len), steps, s, s.memory.value);
    }
  }

  /** If no other call has opened the file since a call opened it, publishing leaves disk and memory with one index. */
  lemma PublishingAloneSyncs(refreshers: nat, len: Lengths, steps: seq<Step>, s: State, r: nat)
    requires Reaches(Init(refreshers, len), steps, s) && Enabled(s, Publish(r)) && s.refreshers[r].alone
    ensures Next(s, Publish(r)).memory.Some?
            && s.file == Next(s, Publish(r)).file == Full(Next(s, Publish(r)).memory.value)
  {
    RunsKeepInv(Init(refreshers, len), steps, s);
    assert AloneOk(s, r);
  }

  // ------------------------------------------------------------------ serialised refreshes

  predicate Busy(x: Refresher) {
    x.Saving? || x.Saved?
  }

  predicate Quiescent(s: State) {
    forall r :: 0 <= r < |s.refreshers| ==> !Busy(s.refreshers[r])
  }

  /** A run in which a call opens the file only when no other call is between opening it and publishing. */
  predicate ReachesSerially(s: State, steps: seq<Step>, t: State)
    decreases |steps|
  {
    if steps == [] then s == t
    else
      && Enabled(s, steps[0]) && (steps[0].Create? ==> Quiescent(s))
      && ReachesSerially(Next(s, steps[0]), steps[1..], t)
  }

  ghost predicate SerialOk(s: State) {
    && (forall q, r :: 0 <= q < r < |s.refreshers| ==> !Busy(s.refreshers[q]) || !Busy(s.refreshers[r]))
    && (forall r :: 0 <= r < |s.refreshers| && Busy(s.refreshers[r]) ==> s.refreshers[r].alone)
    && (Quiescent(s) && s.memory.Some? && !s.failed ==> s.file == Full(s.memory.value))
  }

  lemma SameBusy(s: State, t: State)
    requires |s.refreshers| == |t.refreshers| && forall q :: 0 <= q < |s.refreshers| ==>
             Busy(s.refreshers[q]) == Busy(t.refreshers[q])
    ensures Quiescent(t) <==> Quiescent(s)
  {
    if Quiescent(t) {
      forall q | 0 <= q < |s.refreshers| ensures !Busy(s.refreshers[q]) { assert !Busy(t.refreshers[q]); }
    }
  }

  /** The busy calls stay as they are. */
  lemma SameBusyKept(s: State, t: State)
    requires SerialOk(s) && |s.refreshers| == |t.refreshers| && t.file == s.file && t.memory == s.memory
             && t.failed == s.failed
    requires forall q :: 0 <= q < |s.refreshers| ==>
               Busy(t.refreshers[q]) == Busy(s.refreshers[q])
                 && (Busy(t.refreshers[q]) ==> t.refreshers[q] == s.refreshers[q])
    ensures SerialOk(t)
  {
    SameBusy(s, t);
  }

  lemma SerialCreateKept(s: State, r: nat)
    requires SerialOk(s) && Enabled(s, Create(r)) && Quiescent(s)
    ensures SerialOk(Next(s, Create(r)))
  {
    assert Busy(Next(s, Create(r)).refreshers[r]);
  }

  lemma SerialSaveKept(s: State, step: Step)
    requires SerialOk(s) && Enabled(s, step) && (step.SaveWorks? || step.SaveFails?)
    ensures SerialOk(Next(s, step))
  {
    if step.SaveWorks? { assert Busy(Next(s, step).refreshers[step.r]); }
  }

  lemma SerialPublishKept(s: State, r: nat)
    requires Inv(s) && SerialOk(s) && Enabled(s, Publish(r))
    ensures SerialOk(Next(s, Publish(r)))
  {
    assert AloneOk(s, r);
  }

  lemma SerialRestartKept(s: State, step: Step)
    requires SerialOk(s) && Enabled(s, step) && (step.Restart? || step.Load? || step.LoadFails?)
    ensures SerialOk(Next(s, step))
  {}

  lemma SerialKept(s: State, step: Step)
    requires Inv(s) && SerialOk(s) && Enabled(s, step) && (step.Create? ==> Quiescent(s))
    ensures SerialOk(Next(s, step))
  {
    hide Inv, SerialOk, Quiescent;
    match step
    case Fetch(_, _, _) => SameBusyKept(s, Next(s, step));
    case CreateFails(_) => SameBusyKept(s, Next(s, step));
    case Create(r) => SerialCreateKept(s, r);
    case SaveWorks(_, _) => SerialSaveKept(s, step);
    case SaveFails(_, _) => SerialSaveKept(s, step);
    case Publish(r) => SerialPublishKept(s, r);
    case _ => SerialRestartKept(s, step);
  }

  lemma {:induction false} SerialRuns(s: State, steps: seq<Step>, t: State)
    requires Inv(s) && SerialOk(s) && ReachesSerially(s, steps, t)
    ensures Quiescent(t) && t.memory.Some? && !t.failed ==> t.file == Full(t.memory.value)
    decreases |steps|
  {
    hide Inv, Enabled, Next;
    if |steps| > 0 {
      InvKept(s, steps[0]);
      SerialKept(s, steps[0]);
      SerialRuns(Next(s, steps[0]), steps[1..], t);
    }
  }

  /** While refreshes open the file one after the other, and whenever none is between opening and publishing, disk and
      memory hold the same index unless the last save failed. */
  lemma SerialRefreshesSync(refreshers: nat, len: Lengths, steps: seq<Step>, s: State)
    requires ReachesSerially(Init(refreshers, len), steps, s) && Quiescent(s) && s.memory.Some? && !s.failed
    ensures s.file == Full(s.memory.value)
  {
    SerialRuns(Init(refreshers, len), steps, s);
  }

  /** No two refreshes of the run build the same index; it is enough that their creation times differ. */
  predicate FreshFetches(s: State, steps: seq<Step>)
    decreases |steps|
  {
    steps == [] || (Enabled(s, steps[0]) && IsFresh(s, steps[0]) && FreshFetches(Next(s, steps[0]), steps[1..]))
  }

  predicate IsFresh(s: State, step: Step) {
    step.Fetch? ==> Index(step.list, s.len, step.now) !in s.fetched
  }

  ghost predicate FreshOk(s: State) {
    && (forall q, r :: 0 <= q < r < |s.refreshers| && !s.refreshers[q].Resting? && !s.refreshers[r].Resting? ==>
          s.refreshers[q].index != s.refreshers[r].index)
    && (forall r :: 0 <= r < |s.refreshers| && !s.refreshers[r].Resting? ==>
       s.started && s.memory != Some(s.refreshers[r].index))
    && (forall r :: 0 <= r < |s.refreshers| && s.refreshers[r].Saved? ==> !s.failed)
    && (s.failed && Quiescent(s) && s.memory.Some? ==> s.file != Full(s.memory.value))
  }

  lemma FreshFetchKept(s: State, step: Step)
    requires Inv(s) && FreshOk(s) && Enabled(s, step) && IsFresh(s, step) && step.Fetch?
    ensures FreshOk(Next(s, step))
  {
    var t, r := Next(s, step), step.r;
    forall q | 0 <= q < |s.refreshers| && !s.refreshers[q].Resting? && q != r
      ensures s.refreshers[q].index != t.refreshers[r].index
    {
      assert RefresherOk(s, s.refreshers[q]);
    }
    assert Quiescent(t) ==> Quiescent(s) by { SameBusy(s, t); }
  }

  lemma FreshSaveKept(s: State, step: Step)
    requires Inv(s) && SerialOk(s) && FreshOk(s) && Enabled(s, step) && (step.SaveWorks? || step.SaveFails?)
    ensures FreshOk(Next(s, step))
  {
    var t := Next(s, step);
    if step.SaveWorks? { assert Busy(t.refreshers[step.r]); } else { assert AloneOk(s, step.r); }
  }

  lemma FreshPublishKept(s: State, r: nat)
    requires Inv(s) && SerialOk(s) && FreshOk(s) && Enabled(s, Publish(r))
    ensures FreshOk(Next(s, Publish(r)))
  {
    assert AloneOk(s, r);
  }

  lemma FreshCreateKept(s: State, r: nat)
    requires FreshOk(s) && Enabled(s, Create(r)) && Quiescent(s)
    ensures FreshOk(Next(s, Create(r)))
  {
    assert Busy(Next(s, Create(r)).refreshers[r]);
  }

  lemma FreshRestKept(s: State, step: Step)
    requires FreshOk(s) && Enabled(s, step) && (step.CreateFails? || step.Restart? || step.Load? || step.LoadFails?)
    ensures FreshOk(Next(s, step))
  {
    if step.CreateFails? { SameBusy(s, Next(s, step)); }
  }

  lemma FreshKept(s: State, step: Step)
    requires Inv(s) && SerialOk(s) && FreshOk(s) && Enabled(s, step) && IsFresh(s, step)
             && (step.Create? ==> Quiescent(s))
    ensures FreshOk(Next(s, step))
  {
    hide Inv, SerialOk, FreshOk, Enabled, Next, Quiescent;
    match step
    case Fetch(_, _, _) => FreshFetchKept(s, step);
    case Create(r) => FreshCreateKept(s, r);
    case SaveWorks(_, _) => FreshSaveKept(s, step);
    case SaveFails(_, _) => FreshSaveKept(s, step);
    case Publish(r) => FreshPublishKept(s, r);
    case _ => FreshRestKept(s, step);
  }

  lemma {:induction false} FreshRuns(s: State, steps: seq<Step>, t: State)
    requires Inv(s) && SerialOk(s) && FreshOk(s) && ReachesSerially(s, steps, t) && FreshFetches(s, steps)
    ensures Inv(t) && SerialOk(t) && FreshOk(t)
    decreases |steps|
  {
    hide Inv, SerialOk, FreshOk, Enabled, Next, IsFresh;
    if |steps| > 0 {
      InvKept(s, steps[0]);
      SerialKept(s, steps[0]);
      FreshKept(s, steps[0]);
      FreshRuns(Next(s, steps[0]), steps[1..], t);
    }
  }

  /** With different indexes, disk and memory hold the same index between serialised refreshes if and only if the last
      save did not fail. */
  lemma SerialInStepIff(refreshers: nat, len: Lengths, steps: seq<Step>, s: State)
    requires ReachesSerially(Init(refreshers, len), steps, s) && FreshFetches(Init(refreshers, len), steps)
    requires Quiescent(s) && s.memory.Some?
    ensures s.file == Full(s.memory.value) <==> !s.failed
  {
    FreshRuns(Init(refreshers, len), steps, s);
  }

  // ------------------------------------------------------------------ when the refreshes in flight settle in step

  predicate IsFinishing(step: Step) {
    step.SaveWorks? || step.Publish?
  }

  /** The saves in flight end without an error, and the indexes are published, in some order, with no new save. */
  ghost predicate Finishes(s: State, t: State) {
    exists steps :: (forall step :: step in steps ==> IsFinishing(step)) && Reaches(s, steps, t)
  }

  predicate InStep(s: State) {
    s.memory.Some? && s.file == Full(s.memory.value)
  }

  /** All calls that have opened the file and not published yet have this index; one that is writing is alone; and if
      none is writing, the file holds the index. */
  predicate Agreed(s: State, i: Index) {
    && (forall r :: 0 <= r < |s.refreshers| && Busy(s.refreshers[r]) ==>
          s.refreshers[r].index == i && (s.refreshers[r].Saving? ==> s.refreshers[r].alone))
    && (SomeSaving(s.refreshers) || s.file == Full(i))
  }

  lemma AgreedKept(s: State, i: Index, step: Step)
    requires Inv(s) && Agreed(s, i) && Enabled(s, step) && IsFinishing(step)
    ensures Agreed(Next(s, step), i) && (step.Publish? ==> Next(s, step).memory == Some(i))
    ensures step.SaveWorks? ==> !Quiescent(Next(s, step))
  {
    var t, r := Next(s, step), step.r;
    assert AloneOk(s, r) && Busy(s.refreshers[r]);
    if step.SaveWorks? {
      assert Busy(t.refreshers[r]);
    } else if SomeSaving(s.refreshers) {
      var q :| 0 <= q < |s.refreshers| && s.refreshers[q].Saving?;
      assert t.refreshers[q].Saving?;
    }
  }

  lemma {:induction false} AgreedSettles(s: State, i: Index, steps: seq<Step>, t: State)
    requires Inv(s) && Agreed(s, i) && (Quiescent(s) ==> s.memory == Some(i))
    requires (forall step :: step in steps ==> IsFinishing(step)) && Reaches(s, steps, t) && Quiescent(t)
    ensures InStep(t)
    decreases |steps|
  {
    if steps == [] {
      assert !SomeSaving(s.refreshers);
    } else {
      hide Inv, Enabled, Next, Agreed, Quiescent;
      assert steps[0] in steps;
      AgreedKept(s, i, steps[0]);
      InvKept(s, steps[0]);
      AgreedSettles(Next(s, steps[0]), i, steps[1..], t);
    }
  }

  lemma FinishesMore(s: State, t: State, step: Step)
    requires Finishes(s, t) && Enabled(t, step) && IsFinishing(step)
    ensures Finishes(s, Next(t, step))
  {
    hide Enabled, Next;
    var steps :| (forall x :: x in steps ==> IsFinishing(x)) && Reaches(s, steps, t);
    ReachesMore(s, steps, t, step);
    var more := steps + [step];
    assert (forall x :: x in more ==> IsFinishing(x)) && Reaches(s, more, Next(t, step));
  }

  /** One call ends its save, with its own index in the file, and publishes. */
  lemma FinishOne(s: State, t: State, q: nat) returns (v: State)
    requires Finishes(s, t) && Inv(t) && q < |t.refreshers| && Busy(t.refreshers[q])
    ensures Finishes(s, v) && Inv(v) && v.refreshers == t.refreshers[q := Resting] && (v.failed ==> t.failed)
    ensures v.file == if t.refreshers[q].Saving? then Full(t.refreshers[q].index) else t.file
    ensures v.memory == Some(t.refreshers[q].index)
  {
    v := t;
    assert RefresherOk(t, t.refreshers[q]);
    if t.refreshers[q].Saving? {
      var step := SaveWorks(q, Full(t.refreshers[q].index));
      InvKept(v, step);
      FinishesMore(s, v, step);
      v := Next(v, step);
    }
    InvKept(v, Publish(q));
    FinishesMore(s, v, Publish(q));
    v := Next(v, Publish(q));
  }

  /** The calls before the `k`-th one have finished, all but the `r`-th; the others are where they were. */
  ghost predicate FinishedBefore(s: State, t: State, r: nat, k: nat) {
    && Finishes(s, t) && Inv(t) && |t.refreshers| == |s.refreshers| && (t.failed ==> s.failed)
    && (forall q :: 0 <= q < |t.refreshers| && q < k && q != r ==> !Busy(t.refreshers[q]))
    && (forall q :: 0 <= q < |s.refreshers| && (q >= k || q == r) ==> t.refreshers[q] == s.refreshers[q])
    && (!SomeSaving(s.refreshers) ==> t.file == s.file)
    && (forall w :: 0 <= w < |s.refreshers| && w < k && w != r && s.refreshers[w].Saving? && s.refreshers[w].alone ==>
          t.file == Full(s.refreshers[w].index))
  }

  lemma OneAlone(s: State, w: nat, q: nat)
    requires Inv(s) && w < |s.refreshers| && q < |s.refreshers| && w != q && s.refreshers[w].Saving?
             && s.refreshers[w].alone
    ensures !s.refreshers[q].Saving?
  {
    assert AloneOk(s, w);
  }

  lemma NobodyYet(s: State, r: nat)
    requires Inv(s)
    ensures FinishedBefore(s, s, r, 0)
  {
    assert Reaches(s, [], s);
  }

  lemma NextFinishes(s: State, t: State, r: nat, k: nat) returns (v: State)
    requires Inv(s) && FinishedBefore(s, t, r, k) && k < |s.refreshers|
    ensures FinishedBefore(s, v, r, k + 1)
  {
    hide Inv, Finishes;
    v := t;
    if k != r && Busy(t.refreshers[k]) {
      v := FinishOne(s, t, k);
      forall w: nat | w < |s.refreshers| && w < k && w != r && s.refreshers[w].Saving? && s.refreshers[w].alone
        ensures !s.refreshers[k].Saving?
      {
        OneAlone(s, w, k);
      }
    }
  }

  lemma {:induction false} FinishUpTo(s: State, r: nat, k: nat) returns (t: State)
    requires Inv(s) && k <= |s.refreshers|
    ensures FinishedBefore(s, t, r, k)
  {
    hide FinishedBefore, Inv;
    if k == 0 {
      NobodyYet(s, r);
      t := s;
    } else {
      t := FinishUpTo(s, r, k - 1);
      t := NextFinishes(s, t, r, k - 1);
    }
  }

  /** All calls but one finish, in the order of their numbers. */
  lemma FinishOthers(s: State, r: nat) returns (t: State)
    requires Inv(s) && r < |s.refreshers| && Busy(s.refreshers[r])
    ensures Finishes(s, t) && Inv(t) && |t.refreshers| == |s.refreshers| && t.refreshers[r] == s.refreshers[r]
    ensures (forall q :: 0 <= q < |t.refreshers| && q != r ==> !Busy(t.refreshers[q])) && (t.failed ==> s.failed)
    ensures !SomeSaving(s.refreshers) ==> t.file == s.file
    ensures forall w :: 0 <= w < |s.refreshers| && w != r && s.refreshers[w].Saving? && s.refreshers[w].alone ==>
              t.file == Full(s.refreshers[w].index)
  {
    t := FinishUpTo(s, r, |s.refreshers|);
  }

  /** The call finishes last, and its index is not what the file then holds. */
  ghost predicate Parts(s: State) {
    exists t :: Finishes(s, t) && Quiescent(t) && t.memory.Some? && !InStep(t) && (t.failed ==> s.failed)
  }

  /** A call that is writing but not alone can end its save with a broken file. */
  lemma NotAloneParts(s: State, r: nat)
    requires Inv(s) && r < |s.refreshers| && s.refreshers[r].Saving? && !s.refreshers[r].alone
    ensures Parts(s)
  {
    var t := FinishOthers(s, r);
    var step := SaveWorks(r, Broken);
    FinishesMore(s, t, step);
    var v := Next(t, step);
    FinishesMore(s, v, Publish(r));
    assert !InStep(Next(v, Publish(r))) && Quiescent(Next(v, Publish(r)));
  }

  /** A call that has saved can publish last. */
  lemma SavedParts(s: State, r: nat)
    requires Inv(s) && r < |s.refreshers| && s.refreshers[r].Saved?
    requires if SomeSaving(s.refreshers)
             then exists w ::
                    && 0 <= w < |s.refreshers| && s.refreshers[w].Saving? && s.refreshers[w].alone
                    && s.refreshers[w].index != s.refreshers[r].index
             else s.file != Full(s.refreshers[r].index)
    ensures Parts(s)
  {
    var t := FinishOthers(s, r);
    FinishesMore(s, t, Publish(r));
    assert !InStep(Next(t, Publish(r))) && Quiescent(Next(t, Publish(r)));
  }

  lemma DisagreementParts(s: State)
    requires Inv(s) && !Quiescent(s) && forall i :: !Agreed(s, i)
    ensures Parts(s)
  {
    var a :| 0 <= a < |s.refreshers| && Busy(s.refreshers[a]);
    var i := s.refreshers[a].index;
    assert !Agreed(s, i);
    if r :| 0 <= r < |s.refreshers| && s.refreshers[r].Saving? && !s.refreshers[r].alone {
      NotAloneParts(s, r);
    } else if SomeSaving(s.refreshers) {
      var w :| 0 <= w < |s.refreshers| && s.refreshers[w].Saving?;
      assert AloneOk(s, w);
      var r :| 0 <= r < |s.refreshers| && Busy(s.refreshers[r]) && s.refreshers[r].index != i;
      SavedParts(s, if s.refreshers[r].index != s.refreshers[w].index then r else a);
    } else if s.file != Full(i) {
      SavedParts(s, a);
    } else {
      var r :| 0 <= r < |s.refreshers| && Busy(s.refreshers[r]) && s.refreshers[r].index != i;
      SavedParts(s, r);
    }
  }

  ghost predicate Reachable(refreshers: nat, len: Lengths, s: State) {
    exists steps :: Reaches(Init(refreshers, len), steps, s)
  }

  lemma ReachableInv(refreshers: nat, len: Lengths, s: State)
    requires Reachable(refreshers, len, s)
    ensures Inv(s)
  {
    var run :| Reaches(Init(refreshers, len), run, s);
    RunsKeepInv(Init(refreshers, len), run, s);
  }

  /** In every run: if the saves in flight end without an error, then however they end and in whatever order the indexes
      are published, disk and memory hold the same index in the end, if and only if the calls in flight agree. */
  lemma SettlesInStepIff(refreshers: nat, len: Lengths, s: State)
    requires Reachable(refreshers, len, s) && !Quiescent(s)
    ensures (forall t :: Finishes(s, t) && Quiescent(t) ==> InStep(t)) <==> exists i :: Agreed(s, i)
  {
    hide Inv, Quiescent, Agreed, InStep;
    ReachableInv(refreshers, len, s);
    if i :| Agreed(s, i) {
      forall t | Finishes(s, t) && Quiescent(t) ensures InStep(t) {
        var steps :| (forall step :: step in steps ==> IsFinishing(step)) && Reaches(s, steps, t);
        AgreedSettles(s, i, steps, t);
      }
    } else {
      DisagreementParts(s);
    }
  }

  /** So calls in flight that overlap with different indexes can always part disk and memory, without any error. */
  lemma OverlapParts(refreshers: nat, len: Lengths, s: State, r: nat, q: nat)
    requires Reachable(refreshers, len, s) && r < |s.refreshers| && q < |s.refreshers|
    requires Busy(s.refreshers[r]) && Busy(s.refreshers[q]) && s.refreshers[r].index != s.refreshers[q].index
    ensures Parts(s)
  {
    hide Inv;
    ReachableInv(refreshers, len, s);
    DisagreementParts(s);
  }

  /** And a call in flight that is the only one, and alone, cannot. */
  lemma AloneAgrees(refreshers: nat, len: Lengths, s: State, r: nat)
    requires Reachable(refreshers, len, s) && r < |s.refreshers| && Busy(s.refreshers[r]) && s.refreshers[r].alone
    requires forall q :: 0 <= q < |s.refreshers| && q != r ==> !Busy(s.refreshers[q])
    ensures Agreed(s, s.refreshers[r].index)
  {
    ReachableInv(refreshers, len, s);
    assert AloneOk(s, r);
  }

  // ------------------------------------------------------------------ when a published index was in the file first

  /** A run in which a call opens the file only when no other call is writing it. */
  predicate ReachesSpaced(s: State, steps: seq<Step>, t: State)
    decreases |steps|
  {
    if steps == [] then s == t
    else
      && Enabled(s, steps[0]) && (steps[0].Create? ==> !SomeSaving(s.refreshers))
      && ReachesSpaced(Next(s, steps[0]), steps[1..], t)
  }

  /** At most one call writes, alone; and what was saved or published was in the file in full. */
  ghost predicate SpacedOk(s: State) {
    && (forall q, r :: 0 <= q < r < |s.refreshers| ==> !s.refreshers[q].Saving? || !s.refreshers[r].Saving?)
    && (forall r :: 0 <= r < |s.refreshers| && s.refreshers[r].Saving? ==> s.refreshers[r].alone)
    && (forall r :: 0 <= r < |s.refreshers| && s.refreshers[r].Saved? ==> s.refreshers[r].index in s.held)
    && (s.memory.Some? ==> s.memory.value in s.held)
  }

  lemma SpacedKept(s: State, step: Step)
    requires Inv(s) && SpacedOk(s) && Enabled(s, step) && (step.Create? ==> !SomeSaving(s.refreshers))
    ensures SpacedOk(Next(s, step))
  {
    hide AloneOk, RefresherOk;
  }

  lemma {:induction false} SpacedRuns(s: State, steps: seq<Step>, t: State)
    requires Inv(s) && SpacedOk(s) && ReachesSpaced(s, steps, t)
    ensures SpacedOk(t)
    decreases |steps|
  {
    hide Inv, SpacedOk, Enabled, Next;
    if |steps| > 0 {
      InvKept(s, steps[0]);
      SpacedKept(s, steps[0]);
      SpacedRuns(Next(s, steps[0]), steps[1..], t);
    }
  }

  /** In every run in which calls open the file only when none is writing it, however they publish and whatever fails or
      is restarted, the index that searches read was in the file in full before it was published. */
  lemma SpacedSavesAreHeld(refreshers: nat, len: Lengths, steps: seq<Step>, s: State)
    requires ReachesSpaced(Init(refreshers, len), steps, s)
    ensures s.memory.Some? ==> s.memory.value in s.held
  {
    SpacedRuns(Init(refreshers, len), steps, s);
  }

  /** The call has published its index, without the file ever holding it. */
  predicate EndedUnheld(s: State, r: nat, i: Index) {
    r < |s.refreshers| && s.refreshers[r].Resting? && i !in s.held
  }

  /** In every state, a call that is writing beside another can end its save without an error and publish an index that
      the file never held. */
  lemma OverlapPublishesUnheld(s: State, r: nat) returns (t: State)
    requires r < |s.refreshers| && s.refreshers[r].Saving? && !s.refreshers[r].alone
    requires s.refreshers[r].index !in s.held
    ensures Finishes(s, t) && EndedUnheld(t, r, s.refreshers[r].index) && t.memory == Some(s.refreshers[r].index)
            && !t.failed
  {
    t := s;
    assert Reaches(s, [], s);
    FinishesMore(s, t, SaveWorks(r, Broken));
    t := Next(t, SaveWorks(r, Broken));
    FinishesMore(s, t, Publish(r));
    t := Next(t, Publish(r));
  }

  /** The call is about to publish an index that the file never held. */
  predicate PublishesUnheld(s: State, r: nat) {
    r < |s.refreshers| && s.refreshers[r].Saved? && s.refreshers[r].index !in s.held
  }

  /** If the call is writing it is alone, and if it has saved, its index has been in the file in full. */
  predicate OnItsWay(s: State, r: nat) {
    && r < |s.refreshers|
    && (s.refreshers[r].Saving? ==> s.refreshers[r].alone)
    && (s.refreshers[r].Saved? ==> s.refreshers[r].index in s.held)
  }

  lemma OnItsWayKept(s: State, r: nat, step: Step)
    requires OnItsWay(s, r) && Enabled(s, step) && (step.Create? ==> !SomeSaving(s.refreshers))
    ensures OnItsWay(Next(s, step), r)
  {}

  lemma {:induction false} SpacedIsHeld(s: State, r: nat, steps: seq<Step>, t: State)
    requires OnItsWay(s, r) && ReachesSpaced(s, steps, t)
    ensures OnItsWay(t, r)
    decreases |steps|
  {
    hide OnItsWay, Enabled, Next;
    if |steps| > 0 {
      OnItsWayKept(s, r, steps[0]);
      SpacedIsHeld(Next(s, steps[0]), r, steps[1..], t);
    }
  }

  /** With later openings spaced, a run leads to a state in which the call is about to publish an unheld index. */
  ghost predicate CanPublishUnheld(s: State, r: nat) {
    exists steps, t :: ReachesSpaced(s, steps, t) && PublishesUnheld(t, r)
  }

  lemma SpacedStep(s: State, r: nat, step: Step)
    requires Enabled(s, step) && !step.Create? && PublishesUnheld(Next(s, step), r)
    ensures CanPublishUnheld(s, r)
  {
    hide PublishesUnheld;
    var t, run := Next(s, step), [step];
    assert ReachesSpaced(t, [], t);
    assert run[0] == step && run[1..] == [];
    assert ReachesSpaced(s, run, t);
  }

  lemma OnItsWayNeverUnheld(s: State, r: nat)
    requires OnItsWay(s, r)
    ensures !CanPublishUnheld(s, r)
  {
    hide ReachesSpaced;
    if CanPublishUnheld(s, r) {
      var steps, t :| ReachesSpaced(s, steps, t) && PublishesUnheld(t, r);
      SpacedIsHeld(s, r, steps, t);
    }
  }

  /** In every state, a call opens the file with an index that was never there.  As long as later openings are spaced,
      whatever else happens, with failures, further refreshes and restarts, the call can come to publish an index that
      the file never held if and only if another call is writing when it opens the file.  Later openings matter: in
      PublishedNeverHeld the first call opens the file alone, and a second one beside it. */
  lemma CreateIsSafeIff(s: State, r: nat)
    requires Enabled(s, Create(r)) && s.refreshers[r].index !in s.held
    ensures CanPublishUnheld(Next(s, Create(r)), r) <==> SomeSaving(s.refreshers)
  {
    hide CanPublishUnheld;
    var n := Next(s, Create(r));
    if SomeSaving(s.refreshers) {
      SpacedStep(n, r, SaveWorks(r, Broken));
    } else {
      OnItsWayNeverUnheld(n, r);
    }
  }

  // ------------------------------------------------------------------ where disk and memory part

  lemma {:induction false} ReachesMore(s: State, steps: seq<Step>, t: State, step: Step)
    requires Reaches(s, steps, t) && Enabled(t, step)
    ensures Reaches(s, steps + [step], Next(t, step))
    decreases |steps|
  {
    hide Enabled, Next;
    if |steps| > 0 {
      ReachesMore(Next(s, steps[0]), steps[1..], t, step);
      assert (steps + [step])[1..] == steps[1..] + [step];
    } else {
      assert [step][1..] == [];
      assert Reaches(Next(t, step), [], Next(t, step));
    }
  }

  lemma StartIsReachable(refreshers: nat, len: Lengths)
    ensures Reachable(refreshers, len, Init(refreshers, len))
  {
    assert Reaches(Init(refreshers, len), [], Init(refreshers, len));
  }

  lemma Go(refreshers: nat, len: Lengths, s: State, step: Step) returns (t: State)
    requires Reachable(refreshers, len, s) && Enabled(s, step)
    ensures t == Next(s, step) && Reachable(refreshers, len, t)
  {
    hide Enabled, Next;
    var steps :| Reaches(Init(refreshers, len), steps, s);
    ReachesMore(Init(refreshers, len), steps, s, step);
    t := Next(s, step);
  }

  /** Two refreshes have built their indexes. */
  lemma BothBuilt(len: Lengths, i: Index, j: Index) returns (s: State)
    requires i.len == j.len == len
    ensures Reachable(2, len, s) && s.refreshers == [Built(i), Built(j)] && s.file == Missing
    ensures s.saved == s.held == {} && s.fetched == {i, j} && s.len == len
  {
    hide Reachable;
    s := Init(2, len);
    StartIsReachable(2, len);
    assert s.refreshers == [Resting, Resting];
    s := Go(2, len, s, LoadFails);
    s := Go(2, len, s, Fetch(0, i.list, i.createdAt));
    s := Go(2, len, s, Fetch(1, j.list, j.createdAt));
  }

  /** The first of them has saved its own. */
  lemma FirstSaved(len: Lengths, i: Index, j: Index) returns (s: State)
    requires i.len == j.len == len
    ensures Reachable(2, len, s) && s.refreshers == [Saved(i, true), Built(j)] && s.file == Full(i)
    ensures s.saved == {i} && s.fetched == {i, j} && s.len == len
  {
    hide Reachable;
    s := BothBuilt(len, i, j);
    s := Go(2, len, s, Create(0));
    assert s.refreshers == [Saving(i, true), Built(j)];
    s := Go(2, len, s, SaveWorks(0, Full(i)));
  }

  /** Two refreshes that save one after the other, both without an error, can publish in the opposite order. */
  lemma PublishedInOppositeOrder(len: Lengths, i: Index, j: Index) returns (s: State)
    requires i.len == j.len == len
    ensures Reachable(2, len, s) && s.refreshers == [Resting, Resting]
    ensures s.memory == Some(i) && s.file == Full(j) && s.saved == {i, j} && !s.failed
  {
    hide Reachable;
    s := FirstSaved(len, i, j);
    s := Go(2, len, s, Create(1));
    assert s.refreshers == [Saved(i, false), Saving(j, true)];
    s := Go(2, len, s, SaveWorks(1, Full(j)));
    s := Go(2, len, s, Publish(1));
    s := Go(2, len, s, Publish(0));
  }

  /** Two saves that overlap can end without an error, and one of the indexes be published, although the file has never
      held any index in full. */
  lemma PublishedNeverHeld(len: Lengths, i: Index, j: Index) returns (s: State)
    requires i.len == j.len == len
    ensures Reachable(2, len, s) && s.memory == Some(i) && i in s.saved && !s.failed && s.held == {}
  {
    hide Reachable;
    s := BothBuilt(len, i, j);
    s := Go(2, len, s, Create(0));
    assert s.refreshers == [Saving(i, true), Built(j)];
    s := Go(2, len, s, Create(1));
    assert s.refreshers == [Saving(i, false), Saving(j, false)];
    s := Go(2, len, s, SaveWorks(0, Broken));
    assert s.refreshers == [Saved(i, false), Saving(j, false)];
    s := Go(2, len, s, Publish(0));
  }

  /** A save that fails leaves a truncated file below the index that searches go on reading. */
  lemma FailedSaveTruncates(len: Lengths, i: Index, j: Index) returns (s: State)
    requires i.len == j.len == len
    ensures Reachable(2, len, s) && s.refreshers == [Resting, Resting] && s.memory == Some(i) && s.file == Broken
  {
    hide Reachable;
    s := FirstSaved(len, i, j);
    s := Go(2, len, s, Publish(0));
    s := Go(2, len, s, Create(1));
    assert s.refreshers == [Resting, Saving(j, true)];
    s := Go(2, len, s, SaveFails(1, Broken));
  }
}
