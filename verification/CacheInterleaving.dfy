/** The uploaded-content cache under any interleaving of any number of uploads and
    status requests, each of which may stop at any command: a state machine whose
    steps are the accesses to the store and to the cache. */
module CacheInterleaving {
  import opened Results
  import opened Storage
  import opened UploadRequest
  import opened UploadEffect
  import opened UploadRuns
  import opened Contents

  /** Where a request is; rest is what its current loop still has to do. */
  datatype Worker =
    | Idle
    | Consolidating(r: Request, i: nat)           // entries before i were fetched
    | Saving(r: Request, rest: set<string>)       // files to save
    | Publishing(r: Request, rest: set<string>)   // CIDs to mark as stored
    | Confirmed(cid: string)                      // a status request found cid in the store

  /** dirs collects the CIDs of directory entries of the manifests so far. */
  datatype System = System(files: Files, uploaded: set<string>, dirs: set<string>, workers: map<nat, Worker>)

  datatype Action =
    | Begin(r: Request)
    | Fetch              // consolidateContent: one entry, from the request or the store
    | Validated          // all entries fetched and every other check passed
    | SaveFile(cid: string)
    | AllSaved
    | MarkCid(cid: string)
    | FindStored(cid: string)
    | MarkConfirmed
    | Stop               // finished, failed or crashed

  function WorkerAt(s: System, w: nat): Worker {
    if w in s.workers then s.workers[w] else Idle
  }

  function Moved(s: System, w: nat, worker: Worker): System {
    s.(workers := s.workers[w := worker])
  }

  predicate Fetched(files: Files, r: Request, m: FileMetadata) {
    IsDir(m.name) || m.cid in r.files || m.cid in files
  }

  predicate Enabled(s: System, w: nat, a: Action) {
    var worker := WorkerAt(s, w);
    match a
    case Begin(_) => worker.Idle?
    case Fetch =>
      worker.Consolidating? && worker.i < |worker.r.manifest| && Fetched(s.files, worker.r, worker.r.manifest[worker.i])
    case Validated => worker.Consolidating? && worker.i == |worker.r.manifest|
    case SaveFile(cid) => worker.Saving? && cid in worker.rest && cid in worker.r.files
    case AllSaved => worker.Saving? && worker.rest == {}
    case MarkCid(cid) => worker.Publishing? && cid in worker.rest
    case FindStored(cid) => worker.Idle? && cid in s.files
    case MarkConfirmed => worker.Confirmed?
    case Stop => true
  }

  function Take(s: System, w: nat, a: Action): System
    requires Enabled(s, w, a)
  {
    var worker := WorkerAt(s, w);
    match a
    case Begin(r) => Moved(s, w, Consolidating(r, 0)).(dirs := s.dirs + DirectoryCids(r.manifest))
    case Fetch => Moved(s, w, Consolidating(worker.r, worker.i + 1))
    case Validated => Moved(s, w, Saving(worker.r, worker.r.files.Keys))
    case SaveFile(cid) => Moved(s, w, Saving(worker.r, worker.rest - {cid})).(files := s.files[cid := worker.r.files[cid].data])
    case AllSaved => Moved(s, w, Publishing(worker.r, CidsIn(Entries(worker.r.manifest))))
    case MarkCid(cid) => Moved(s, w, Publishing(worker.r, worker.rest - {cid})).(uploaded := s.uploaded + {cid})
    case FindStored(cid) => Moved(s, w, Confirmed(cid))
    case MarkConfirmed => Moved(s, w, Idle).(uploaded := s.uploaded + {worker.cid})
    case Stop => Moved(s, w, Idle)
  }

  predicate Sound(s: System) {
    s.uploaded <= s.files.Keys + s.dirs
  }

  // ---------- the inductive invariant ----------

  /** What a worker may rely on, which no other worker can take away. */
  predicate WorkerSound(files: Files, dirs: set<string>, worker: Worker) {
    match worker
    case Idle => true
    case Consolidating(r, i) =>
      i <= |r.manifest| && DirectoryCids(r.manifest) <= dirs && forall j :: 0 <= j < i ==> Fetched(files, r, r.manifest[j])
    case Saving(r, rest) =>
      && DirectoryCids(r.manifest) <= dirs
      && r.files.Keys <= files.Keys + rest
      && forall m :: m in r.manifest ==> Fetched(files, r, m)
    case Publishing(r, rest) => rest <= files.Keys + dirs
    case Confirmed(cid) => cid in files
  }

  predicate Invariant(s: System) {
    Sound(s) && forall w :: w in s.workers ==> WorkerSound(s.files, s.dirs, s.workers[w])
  }

  lemma OthersStaySound(s: System, w: nat, a: Action)
    requires Invariant(s) && Enabled(s, w, a)
    ensures forall v :: v in s.workers && v != w ==> WorkerSound(Take(s, w, a).files, Take(s, w, a).dirs, s.workers[v])
  {
    hide DirectoryCids, CidsIn, Entries;
    var s' := Take(s, w, a);
    assert s.files.Keys <= s'.files.Keys && s.dirs <= s'.dirs;
    forall v | v in s.workers && v != w
      ensures WorkerSound(s'.files, s'.dirs, s.workers[v])
    {
      GrowthIsHarmless(s.files, s.dirs, s'.files, s'.dirs, s.workers[v]);
    }
  }

  lemma GrowthIsHarmless(files: Files, dirs: set<string>, files': Files, dirs': set<string>, worker: Worker)
    requires WorkerSound(files, dirs, worker) && files.Keys <= files'.Keys && dirs <= dirs'
    ensures WorkerSound(files', dirs', worker)
  {
    hide DirectoryCids;
  }

  /** The CIDs an upload is about to mark are stored or named by directories. */
  lemma ManifestIsStored(files: Files, dirs: set<string>, r: Request)
    requires WorkerSound(files, dirs, Saving(r, {}))
    ensures CidsIn(Entries(r.manifest)) <= files.Keys + dirs
  {
    forall c | c in CidsIn(Entries(r.manifest))
      ensures c in files.Keys + dirs
    {
      var m :| m in r.manifest && m.cid == c;
      assert Fetched(files, r, m);
      assert IsDir(m.name) ==> m.cid in DirectoryCids(r.manifest);
    }
  }

  lemma StepKeepsInvariant(s: System, w: nat, a: Action)
    requires Invariant(s) && Enabled(s, w, a)
    ensures Invariant(Take(s, w, a))
  {
    var s' := Take(s, w, a);
    OthersStaySound(s, w, a);
    if a.AllSaved? {
      ManifestIsStored(s.files, s.dirs, WorkerAt(s, w).r);
    }
    hide DirectoryCids, CidsIn, Entries;
    assert w in s.workers ==> WorkerSound(s.files, s.dirs, s.workers[w]);
    assert WorkerSound(s'.files, s'.dirs, s'.workers[w]);
  }

  // ---------- behaviours ----------

  datatype Event = Event(worker: nat, action: Action)

  /** The state after a sequence of events, if each could happen. */
  function After(s: System, events: seq<Event>): Option<System> {
    if events == [] then Some(s)
    else
      var n := |events| - 1;
      match After(s, events[..n])
      case None => None
      case Some(s') =>
        if Enabled(s', events[n].worker, events[n].action) then Some(Take(s', events[n].worker, events[n].action)) else None
  }

  lemma {:induction false} InvariantAlways(s: System, events: seq<Event>)
    requires Invariant(s) && After(s, events).Some?
    ensures Invariant(After(s, events).value)
  {
    hide Take, Enabled, Invariant;
    if events == [] {
    } else {
      var n := |events| - 1;
      InvariantAlways(s, events[..n]);
      StepKeepsInvariant(After(s, events[..n]).value, events[n].worker, events[n].action);
    }
  }

  /** After every sequence of events, from a sound cache and no request under way,
      every CID in the cache is stored or was named by a directory entry. */
  lemma CacheAlwaysSound(s: System, events: seq<Event>)
    requires Sound(s) && s.workers == map[] && After(s, events).Some?
    ensures Sound(After(s, events).value)
  {
    InvariantAlways(s, events);
  }

  // ---------- uploads and status requests take these steps ----------

  lemma {:induction false} AfterAppend(s: System, a: seq<Event>, b: seq<Event>)
    requires After(s, a).Some?
    ensures After(s, a + b) == After(After(s, a).value, b)
  {
    hide Take, Enabled;
    if b == [] {
      assert a + b == a;
    } else {
      var n := |b| - 1;
      assert (a + b)[..|a + b| - 1] == a + b[..n];
      AfterAppend(s, a, b[..n]);
    }
  }

  lemma NoEvents(s: System)
    ensures After(s, []) == Some(s)
  {
  }

  lemma Last(s: System, before: seq<Event>, s': System, w: nat, a: Action)
    requires After(s, before) == Some(s') && Enabled(s', w, a)
    ensures After(s, before + [Event(w, a)]) == Some(Take(s', w, a))
  {
    hide Take, Enabled;
    assert (before + [Event(w, a)])[..|before|] == before;
  }

  lemma First(s: System, w: nat, a: Action, more: seq<Event>)
    requires Enabled(s, w, a) && After(Take(s, w, a), more).Some?
    ensures After(s, [Event(w, a)] + more) == After(Take(s, w, a), more)
  {
    hide After, Take, Enabled;
    NoEvents(s);
    Last(s, [], s, w, a);
    assert [] + [Event(w, a)] == [Event(w, a)];
    AfterAppend(s, [Event(w, a)], more);
  }

  lemma MovedTwice(s: System, w: nat, first: Worker, second: Worker)
    ensures s.workers[w := first][w := second] == s.workers[w := second]
    ensures WorkerAt(s, w) == first && w in s.workers ==> s.workers[w := first] == s.workers
  {
  }

  lemma {:induction false} FetchAll(s: System, w: nat, r: Request, i: nat) returns (events: seq<Event>)
    requires w in s.workers && WorkerAt(s, w) == Consolidating(r, i) && i <= |r.manifest|
    requires forall m :: m in r.manifest ==> Fetched(s.files, r, m)
    ensures After(s, events) == Some(Moved(s, w, Consolidating(r, |r.manifest|)))
    decreases |r.manifest| - i
  {
    MovedTwice(s, w, Consolidating(r, i), Consolidating(r, |r.manifest|));
    if i == |r.manifest| {
      return [];
    }
    hide After, Fetched;
    MovedTwice(s, w, Consolidating(r, i + 1), Consolidating(r, |r.manifest|));
    assert r.manifest[i] in r.manifest;
    var more := FetchAll(Take(s, w, Fetch), w, r, i + 1);
    First(s, w, Fetch, more);
    events := [Event(w, Fetch)] + more;
  }

  /** The worker has validated r and is about to save its files. */
  function Started(s: System, w: nat, r: Request): System {
    Moved(s, w, Saving(r, r.files.Keys)).(dirs := s.dirs + DirectoryCids(r.manifest))
  }

  lemma StartUpload(s: System, w: nat, r: Request) returns (events: seq<Event>)
    requires WorkerAt(s, w) == Idle && Fetchable(r.files, s.files, r.manifest)
    ensures After(s, events) == Some(Started(s, w, r))
  {
    assert forall m :: m in r.manifest && !IsDir(m.name) ==> Source(r.files, s.files, m.cid).Some?;
    hide After, DirectoryCids, Fetchable;
    var s0 := Take(s, w, Begin(r));
    var fetching := FetchAll(s0, w, r, 0);
    var s1 := Moved(s0, w, Consolidating(r, |r.manifest|));
    MovedTwice(s, w, Consolidating(r, 0), Consolidating(r, |r.manifest|));
    MovedTwice(s, w, Consolidating(r, |r.manifest|), Saving(r, r.files.Keys));
    First(s, w, Begin(r), fetching);
    Last(s, [Event(w, Begin(r))] + fetching, s1, w, Validated);
    events := [Event(w, Begin(r))] + fetching + [Event(w, Validated)];
  }

  lemma SavedFirst(store: Files, r: Request, todo: set<string>, cid: string)
    requires cid in todo && todo <= r.files.Keys
    ensures Saved(store[cid := r.files[cid].data], r.files, todo - {cid}) == Saved(store, r.files, todo)
  {
  }

  lemma {:induction false} SaveSome(s: System, w: nat, r: Request, rest: set<string>, todo: set<string>)
    returns (events: seq<Event>)
    requires w in s.workers && WorkerAt(s, w) == Saving(r, rest) && todo <= rest && rest <= r.files.Keys
    ensures After(s, events) == Some(Moved(s, w, Saving(r, rest - todo)).(files := Saved(s.files, r.files, todo)))
    decreases todo
  {
    MovedTwice(s, w, Saving(r, rest), Saving(r, rest - todo));
    if todo == {} {
      assert Saved(s.files, r.files, todo) == s.files && rest - todo == rest;
      return [];
    }
    hide After, Saved;
    var cid :| cid in todo;
    assert rest - {cid} - (todo - {cid}) == rest - todo;
    MovedTwice(s, w, Saving(r, rest - {cid}), Saving(r, rest - todo));
    SavedFirst(s.files, r, todo, cid);
    var more := SaveSome(Take(s, w, SaveFile(cid)), w, r, rest - {cid}, todo - {cid});
    First(s, w, SaveFile(cid), more);
    events := [Event(w, SaveFile(cid))] + more;
  }

  lemma {:induction false} MarkSome(s: System, w: nat, r: Request, rest: set<string>, todo: set<string>)
    returns (events: seq<Event>)
    requires w in s.workers && WorkerAt(s, w) == Publishing(r, rest) && todo <= rest
    ensures After(s, events) == Some(Moved(s, w, Publishing(r, rest - todo)).(uploaded := s.uploaded + todo))
    decreases todo
  {
    MovedTwice(s, w, Publishing(r, rest), Publishing(r, rest - todo));
    if todo == {} {
      assert s.uploaded + todo == s.uploaded && rest - todo == rest;
      return [];
    }
    hide After;
    var cid :| cid in todo;
    assert rest - {cid} - (todo - {cid}) == rest - todo;
    assert s.uploaded + {cid} + (todo - {cid}) == s.uploaded + todo;
    MovedTwice(s, w, Publishing(r, rest - {cid}), Publishing(r, rest - todo));
    var more := MarkSome(Take(s, w, MarkCid(cid)), w, r, rest - {cid}, todo - {cid});
    First(s, w, MarkCid(cid), more);
    events := [Event(w, MarkCid(cid))] + more;
  }

  /** The events lead to these files and this cache, with the worker done. */
  predicate LeadsTo(s: System, events: seq<Event>, w: nat, files: Files, uploaded: set<string>) {
    var s' := After(s, events);
    s'.Some? && s'.value.files == files && s'.value.uploaded == uploaded && WorkerAt(s'.value, w) == Idle
  }

  lemma SaveThenStop(s: System, w: nat, r: Request, done: set<string>) returns (events: seq<Event>)
    requires w in s.workers && WorkerAt(s, w) == Saving(r, r.files.Keys) && done <= r.files.Keys
    ensures LeadsTo(s, events, w, Saved(s.files, r.files, done), s.uploaded)
  {
    hide After, Saved;
    var saving := SaveSome(s, w, r, r.files.Keys, done);
    var s1 := Moved(s, w, Saving(r, r.files.Keys - done)).(files := Saved(s.files, r.files, done));
    Last(s, saving, s1, w, Stop);
    events := saving + [Event(w, Stop)];
  }

  lemma SaveThenPublish(s: System, w: nat, r: Request) returns (events: seq<Event>)
    requires w in s.workers && WorkerAt(s, w) == Saving(r, r.files.Keys)
    ensures After(s, events)
            == Some(Moved(s, w, Publishing(r, CidsIn(Entries(r.manifest)))).(files := Saved(s.files, r.files, r.files.Keys)))
  {
    hide After, Saved, CidsIn, Entries;
    var saving := SaveSome(s, w, r, r.files.Keys, r.files.Keys);
    assert r.files.Keys - r.files.Keys == {};
    var s1 := Moved(s, w, Saving(r, {})).(files := Saved(s.files, r.files, r.files.Keys));
    MovedTwice(s, w, Saving(r, {}), Publishing(r, CidsIn(Entries(r.manifest))));
    Last(s, saving, s1, w, AllSaved);
    events := saving + [Event(w, AllSaved)];
  }

  lemma MarkThenStop(s: System, w: nat, r: Request, cids: set<string>, known: set<string>) returns (events: seq<Event>)
    requires w in s.workers && WorkerAt(s, w) == Publishing(r, cids) && known <= cids
    ensures LeadsTo(s, events, w, s.files, s.uploaded + known)
  {
    hide After;
    var marking := MarkSome(s, w, r, cids, known);
    var s1 := Moved(s, w, Publishing(r, cids - known)).(uploaded := s.uploaded + known);
    Last(s, marking, s1, w, Stop);
    events := marking + [Event(w, Stop)];
  }

  /** The files an upload saved and the CIDs it marked, whatever became of it. */
  lemma CachedParts(st: State, r: Request, st': State) returns (done: set<string>, known: set<string>)
    requires Committed(st, r, st') || Underway(st, r, st')
    ensures done <= r.files.Keys && st'.files == Saved(st.files, r.files, done)
    ensures known <= CidsIn(Entries(r.manifest)) && st'.ix.uploaded == st.ix.uploaded + known
    ensures known == {} || done == r.files.Keys
  {
    UploadWithin(st, r, st');
    done :| done <= r.files.Keys && st'.files == Saved(st.files, r.files, done) && (st'.ix == st.ix || done == r.files.Keys);
    hide Committed, Underway, CidsIn, Entries, ScenesWithin, HashWithin;
    known := st'.ix.uploaded - st.ix.uploaded;
  }

  /** The effect of every upload on store and cache, wherever it stopped, is that of
      a sequence of these steps by one worker. */
  lemma UploadTakesTheseSteps(st: State, r: Request, st': State, s: System, w: nat) returns (events: seq<Event>)
    requires Fetchable(r.files, st.files, r.manifest) && (Committed(st, r, st') || Underway(st, r, st'))
    requires s.files == st.files && s.uploaded == st.ix.uploaded && WorkerAt(s, w) == Idle
    ensures LeadsTo(s, events, w, st'.files, st'.ix.uploaded)
  {
    var done, known := CachedParts(st, r, st');
    hide Committed, Underway, Saved, CidsIn, Entries, DirectoryCids, After, Fetchable;
    var starting := StartUpload(s, w, r);
    var s1 := Started(s, w, r);
    var more;
    if known == {} {
      assert st'.ix.uploaded == s.uploaded;
      more := SaveThenStop(s1, w, r, done);
    } else {
      var saving := SaveThenPublish(s1, w, r);
      var s2 := After(s1, saving).value;
      var marking := MarkThenStop(s2, w, r, CidsIn(Entries(r.manifest)), known);
      AfterAppend(s1, saving, marking);
      more := saving + marking;
    }
    AfterAppend(s, starting, more);
    events := starting + more;
  }

  lemma {:induction false} ConfirmSome(s: System, w: nat, todo: set<string>) returns (events: seq<Event>)
    requires WorkerAt(s, w) == Idle && todo <= s.files.Keys
    ensures LeadsTo(s, events, w, s.files, s.uploaded + todo)
    decreases todo
  {
    if todo == {} {
      NoEvents(s);
      assert s.uploaded + todo == s.uploaded;
      return [];
    }
    hide After;
    var cid :| cid in todo;
    var s1 := Take(s, w, FindStored(cid));
    var s2 := Take(s1, w, MarkConfirmed);
    var more := ConfirmSome(s2, w, todo - {cid});
    assert s.uploaded + {cid} + (todo - {cid}) == s.uploaded + todo;
    First(s1, w, MarkConfirmed, more);
    First(s, w, FindStored(cid), [Event(w, MarkConfirmed)] + more);
    events := [Event(w, FindStored(cid))] + ([Event(w, MarkConfirmed)] + more);
  }

  /** So is the effect of every status request, answered or not. */
  lemma StatusTakesTheseSteps(st: State, cids: seq<string>, st': State, s: System, w: nat) returns (events: seq<Event>)
    requires Asked(st, cids, st')
    requires s.files == st.files && s.uploaded == st.ix.uploaded && WorkerAt(s, w) == Idle
    ensures LeadsTo(s, events, w, st'.files, st'.ix.uploaded)
  {
    var added :| added <= st.files.Keys && st'.ix == Remember(st.ix, added);
    assert Remember(st.ix, added).uploaded == st.ix.uploaded + added;
    events := ConfirmSome(s, w, added);
  }
}
