/** Concurrent getDirInfo calls: the item locks of rclone/dir_cache.go as used in rclone/rclone.go, as a state machine
    with one step for each lock operation, cache access, request and response, and for the passing of time. */
module ListingProtocol {
  import opened DirCache
  import opened Wrappers

  /** A call waits for the item's lock, holds it, waits for the backend, or has its response. */
  datatype Phase = Waiting | Holding | Requesting | Responded(listing: Listing, fetched: int)

  /** The last case is a call that returned `listing`, fetched and stored at the given times, at the time `at`. */
  datatype Call = Idle | Active(path: string, phase: Phase) | Failed
                | Returned(path: string, listing: Listing, fetched: int, stored: int, at: int)

  datatype Item = Item(listing: Listing, fetched: int, expiresAt: int)

  /** `stores` is the history of the times at which a listing was stored for a path. */
  datatype State = State(now: int, calls: seq<Call>, holder: map<string, nat>, items: map<string, Item>,
                         stores: map<string, seq<int>>)

  datatype Step = Begin(c: nat, path: string) | Lock(c: nat) | Hit(c: nat) | Miss(c: nat) | Answer(c: nat)
                | Refuse(c: nat) | Store(c: nat) | Again(c: nat) | Tick(d: nat)

  datatype System = System(ttl: int, backend: Backend) {

    function Init(n: nat, now: int): State {
      State(now, seq(n, _ => Idle), map[], map[], map[])
    }

    predicate InPhase(s: State, c: nat, ph: Phase) {
      c < |s.calls| && s.calls[c].Active? && s.calls[c].phase == ph
    }

    predicate Servable(s: State, p: string) {
      p in s.items && s.now <= s.items[p].expiresAt
    }

    predicate Enabled(s: State, step: Step) {
      match step
      case Begin(c, _) => c < |s.calls| && s.calls[c].Idle?
      case Lock(c) => InPhase(s, c, Waiting) && s.calls[c].path !in s.holder
      case Hit(c) => InPhase(s, c, Holding) && Servable(s, s.calls[c].path)
      case Miss(c) => InPhase(s, c, Holding) && !Servable(s, s.calls[c].path)
      case Answer(c) => InPhase(s, c, Requesting) && backend(s.calls[c].path, s.now).Some?
      case Refuse(c) => InPhase(s, c, Requesting)
      case Store(c) => c < |s.calls| && s.calls[c].Active? && s.calls[c].phase.Responded?
      case Again(c) => c < |s.calls| && (s.calls[c].Returned? || s.calls[c].Failed?)
      case Tick(_) => true
    }

    function Next(s: State, step: Step): State
      requires Enabled(s, step)
    {
      match step
      case Begin(c, p) => s.(calls := s.calls[c := Active(p, Waiting)])
      case Lock(c) =>
        var p := s.calls[c].path;
        s.(calls := s.calls[c := Active(p, Holding)], holder := s.holder[p := c])
      case Hit(c) =>
        var p := s.calls[c].path;
        var it := s.items[p];
        s.(calls := s.calls[c := Returned(p, it.listing, it.fetched, it.expiresAt - ttl, s.now)],
          holder := s.holder - {p})
      case Miss(c) => s.(calls := s.calls[c := Active(s.calls[c].path, Requesting)])
      case Answer(c) =>
        var p := s.calls[c].path;
        s.(calls := s.calls[c := Active(p, Responded(backend(p, s.now).value, s.now))])
      case Refuse(c) => s.(calls := s.calls[c := Failed], holder := s.holder - {s.calls[c].path})
      case Store(c) =>
        var p, r := s.calls[c].path, s.calls[c].phase;
        s.(calls := s.calls[c := Returned(p, r.listing, r.fetched, s.now, s.now)],
           holder := s.holder - {p},
           items := s.items[p := Item(r.listing, r.fetched, s.now + ttl)],
           stores := s.stores[p := Times(s, p) + [s.now]])
      case Again(c) => s.(calls := s.calls[c := Idle])
      case Tick(d) => s.(now := s.now + d)
    }

    function Times(s: State, p: string): seq<int> {
      if p in s.stores then s.stores[p] else []
    }

    /** The state after a run, if every step of it was enabled. */
    ghost predicate Reaches(s: State, steps: seq<Step>, t: State)
      decreases |steps|
    {
      if steps == [] then s == t
      else Enabled(s, steps[0]) && Reaches(Next(s, steps[0]), steps[1..], t)
    }

    // ---------------------------------------------------------------- the invariant

    /** Exactly the calls past the lock of a path hold it. */
    ghost predicate LocksHeld(s: State) {
      && (forall p :: p in s.holder ==>
            s.holder[p] < |s.calls| && s.calls[s.holder[p]].Active? && s.calls[s.holder[p]].path == p
              && !s.calls[s.holder[p]].phase.Waiting?)
      && (forall c :: 0 <= c < |s.calls| && s.calls[c].Active? && !s.calls[c].phase.Waiting? ==>
            s.calls[c].path in s.holder && s.holder[s.calls[c].path] == c)
    }

    ghost predicate Genuine(p: string, listing: Listing, fetched: int) {
      backend(p, fetched) == Some(listing)
    }

    /** What is cached, received or returned is a response of the backend for that path, stored before now. */
    ghost predicate DataGenuine(s: State) {
      ItemsGenuine(s) && forall c :: 0 <= c < |s.calls| ==> CallGenuine(s, s.calls[c])
    }

    /** A returned listing was answered for the path and stored no more than `ttl` before it was returned. */
    ghost predicate Recent(r: Call)
      requires r.Returned?
    {
      Genuine(r.path, r.listing, r.fetched) && r.fetched <= r.stored <= r.at <= r.stored + ttl
    }

    /** Consecutive times are more than `ttl` apart. */
    ghost predicate Spaced(ts: seq<int>) {
      forall i, j :: 0 <= i < j < |ts| ==> ts[i] + ttl < ts[j]
    }

    /** The history of a path is spaced and ends with the time at which its item was stored. */
    ghost predicate HistoryOf(s: State, p: string) {
      var ts := Times(s, p);
      Spaced(ts) && (|ts| > 0 <==> p in s.items) && (|ts| > 0 ==> ts[|ts| - 1] == s.items[p].expiresAt - ttl)
    }

    ghost predicate StoresApart(s: State) {
      forall p :: HistoryOf(s, p)
    }

    /** While a call is past a cache miss, the item of its path has expired. */
    ghost predicate MissesExpired(s: State) {
      forall c ::
        0 <= c < |s.calls| && s.calls[c].Active? && (s.calls[c].phase.Requesting? || s.calls[c].phase.Responded?) ==>
          s.calls[c].path in s.items ==> s.items[s.calls[c].path].expiresAt < s.now
    }

    /** What a call returned was stored for its path at the time that it names. */
    ghost predicate ReturnsStored(s: State) {
      forall c :: 0 <= c < |s.calls| && s.calls[c].Returned? ==> s.calls[c].stored in Times(s, s.calls[c].path)
    }

    ghost predicate Inv(s: State) {
      LocksHeld(s) && DataGenuine(s) && StoresApart(s) && MissesExpired(s) && ReturnsStored(s)
    }

    /** The call moves on without taking or releasing a lock. */
    lemma LockStays(s: State, t: State, c: nat)
      requires LocksHeld(s) && c < |s.calls| && t.holder == s.holder && |t.calls| == |s.calls|
               && t.calls == s.calls[c := t.calls[c]]
      requires s.calls[c].Active? && !s.calls[c].phase.Waiting? <==> t.calls[c].Active? && !t.calls[c].phase.Waiting?
      requires s.calls[c].Active? && t.calls[c].Active? ==> s.calls[c].path == t.calls[c].path
      ensures LocksHeld(t)
    {}

    lemma LockReleased(s: State, t: State, c: nat)
      requires LocksHeld(s) && c < |s.calls| && s.calls[c].Active? && !s.calls[c].phase.Waiting?
      requires t.holder == s.holder - {s.calls[c].path} && |t.calls| == |s.calls|
               && t.calls == s.calls[c := t.calls[c]] && !t.calls[c].Active?
      ensures LocksHeld(t)
    {}

    lemma LockTaken(s: State, c: nat)
      requires LocksHeld(s) && Enabled(s, Lock(c))
      ensures LocksHeld(Next(s, Lock(c)))
    {}

    lemma LocksKept(s: State, step: Step)
      requires LocksHeld(s) && Enabled(s, step)
      ensures LocksHeld(Next(s, step))
    {
      hide LocksHeld, Times, Servable;
      var t := Next(s, step);
      match step
      case Lock(c) => LockTaken(s, c);
      case Hit(c) => LockReleased(s, t, c);
      case Refuse(c) => LockReleased(s, t, c);
      case Store(c) => LockReleased(s, t, c);
      case Begin(c, _) => LockStays(s, t, c);
      case Miss(c) => LockStays(s, t, c);
      case Answer(c) => LockStays(s, t, c);
      case Again(c) => LockStays(s, t, c);
      case Tick(_) => SameLocks(s, t);
    }

    lemma SameLocks(s: State, t: State)
      requires LocksHeld(s) && t.calls == s.calls && t.holder == s.holder
      ensures LocksHeld(t)
    {}

    ghost predicate ItemsGenuine(s: State) {
      forall p :: p in s.items ==>
        Genuine(p, s.items[p].listing, s.items[p].fetched) && s.items[p].fetched <= s.items[p].expiresAt - ttl <= s.now
    }

    /** What a call has received or returned. */
    ghost predicate CallGenuine(s: State, c: Call) {
      match c
      case Active(p, Responded(listing, fetched)) => Genuine(p, listing, fetched) && fetched <= s.now
      case Returned(_, _, _, _, _) => Recent(c)
      case _ => true
    }

    lemma ItemsKept(s: State, step: Step)
      requires ttl > 0 && DataGenuine(s) && Enabled(s, step)
      ensures ItemsGenuine(Next(s, step))
    {}

    lemma CallsKept(s: State, step: Step)
      requires ttl > 0 && DataGenuine(s) && Enabled(s, step)
      ensures forall c :: 0 <= c < |Next(s, step).calls| ==> CallGenuine(Next(s, step), Next(s, step).calls[c])
    {
      var t := Next(s, step);
      forall c | 0 <= c < |t.calls| ensures CallGenuine(t, t.calls[c]) {
        assert CallGenuine(s, s.calls[c]);
      }
    }

    lemma DataKept(s: State, step: Step)
      requires ttl > 0 && DataGenuine(s) && Enabled(s, step)
      ensures DataGenuine(Next(s, step))
    {
      hide Enabled, Next, Genuine, Recent;
      ItemsKept(s, step);
      CallsKept(s, step);
    }

    lemma MissesKept(s: State, step: Step)
      requires ttl > 0 && LocksHeld(s) && MissesExpired(s) && Enabled(s, step)
      ensures MissesExpired(Next(s, step))
    {}

    lemma HistoryKept(s: State, step: Step, p: string)
      requires ttl > 0 && HistoryOf(s, p) && MissesExpired(s) && Enabled(s, step)
      ensures HistoryOf(Next(s, step), p)
    {
      if step.Store? && p == s.calls[step.c].path {
        SpacedSnoc(Times(s, p), s.now);
      } else {
        var t := Next(s, step);
        assert Times(t, p) == Times(s, p);
        assert p in t.items <==> p in s.items;
        assert p in t.items ==> t.items[p] == s.items[p];
        hide Next, Times, Enabled, MissesExpired;
      }
    }

    lemma ApartKept(s: State, step: Step)
      requires ttl > 0 && StoresApart(s) && MissesExpired(s) && Enabled(s, step)
      ensures StoresApart(Next(s, step))
    {
      hide HistoryOf, MissesExpired, Enabled, Next;
      forall p ensures HistoryOf(Next(s, step), p) {
        HistoryKept(s, step, p);
      }
    }

    lemma SpacedSnoc(ts: seq<int>, now: int)
      requires Spaced(ts) && ttl > 0 && (|ts| > 0 ==> ts[|ts| - 1] + ttl < now)
      ensures Spaced(ts + [now])
    {
      forall i | 0 <= i < |ts| ensures ts[i] + ttl < now {
        assert i < |ts| - 1 ==> ts[i] + ttl < ts[|ts| - 1];
      }
    }

    lemma ReturnsKept(s: State, step: Step)
      requires StoresApart(s) && ReturnsStored(s) && Enabled(s, step)
      ensures ReturnsStored(Next(s, step))
    {
      if step.Hit? { assert HistoryOf(s, s.calls[step.c].path); }
    }

    lemma {:induction false} RunsKeepInv(s: State, steps: seq<Step>, t: State)
      requires ttl > 0 && Inv(s) && Reaches(s, steps, t)
      ensures Inv(t)
      decreases |steps|
    {
      if steps != [] {
        hide LocksHeld, DataGenuine, StoresApart, MissesExpired, ReturnsStored, Enabled;
        LocksKept(s, steps[0]);
        DataKept(s, steps[0]);
        ApartKept(s, steps[0]);
        MissesKept(s, steps[0]);
        ReturnsKept(s, steps[0]);
        RunsKeepInv(Next(s, steps[0]), steps[1..], t);
      }
    }

    /** In every run, with the cache enabled: at most one request for a path is in flight; what a call returned was
        answered by the backend for that path, and was stored for it at most `ttl` before; and listings of one path are
        stored more than `ttl` apart. */
    lemma ListingSafety(n: nat, now: int, steps: seq<Step>, t: State)
      requires ttl > 0 && Reaches(Init(n, now), steps, t)
      ensures forall c: nat, d: nat ::
                InPhase(t, c, Requesting) && InPhase(t, d, Requesting) && t.calls[c].path == t.calls[d].path ==> c == d
      ensures forall c :: 0 <= c < |t.calls| && t.calls[c].Returned? ==>
                Recent(t.calls[c]) && t.calls[c].stored in Times(t, t.calls[c].path)
      ensures forall p :: Spaced(Times(t, p))
    {
      RunsKeepInv(Init(n, now), steps, t);
      forall p ensures Spaced(Times(t, p)) {
        assert HistoryOf(t, p);
      }
    }
  }
}
