/** Properties of whole runs of uploads, whatever their outcomes. */
module UploadRuns {
  import opened ParcelId
  import opened SceneIndex
  import opened Storage
  import opened Authorization
  import opened UploadRequest
  import opened UploadEffect
  import opened SceneInvariant
  import opened UploadService

  /** One call of ProcessUpload, as its contract describes it. */
  datatype Attempt = Attempt(env: Outside, request: Request)

  ghost predicate Attempted(h: Hashing, limit: int, st: State, a: Attempt, st': State) {
    || st' == st
    || (Acceptable(h, limit, a.env, st.files, a.request)
        && (Committed(st, a.request, st') || Underway(st, a.request, st')))
  }

  ghost predicate IsRun(h: Hashing, limit: int, states: seq<State>, attempts: seq<Attempt>) {
    && |states| == |attempts| + 1
    && forall i :: 0 <= i < |attempts| ==> Attempted(h, limit, states[i], attempts[i], states[i + 1])
  }

  // ---------- what one step can change ----------

  lemma OverwrittenChanges(prior: Fields, entries: set<FileMetadata>, hash: Fields, n: string)
    requires Overwritten(prior, entries, hash) && n in hash
    ensures (n in prior && hash[n] == prior[n]) || FileMetadata(hash[n], n) in entries
  {
  }

  /** The part of the scene index a placement of r can change. */
  ghost predicate ScenesWithin(ix: Index, r: Request, ix': Index) {
    && (forall p :: p !in r.parcels ==> Lookup(ix'.parcelCid, p) == Lookup(ix.parcelCid, p))
    && (forall s :: s !in Owners(ix, r.parcels) ==> |ListOf(ix', s)| >= |ListOf(ix, s)|)
  }

  /** The part of the content an upload of r can change: names of its own root,
      and only to CIDs of its manifest. */
  ghost predicate ContentWithin(ix: Index, r: Request, ix': Index) {
    var root := r.metadata.rootCid;
    && ix.uploaded <= ix'.uploaded <= ix.uploaded + CidsIn(Entries(r.manifest))
    && (forall q :: q != root ==> HashOf(ix'.content, q) == HashOf(ix.content, q))
    && HashWithin(HashOf(ix.content, root), r.manifest, HashOf(ix'.content, root))
  }

  ghost predicate HashWithin(prior: Fields, manifest: seq<FileMetadata>, hash: Fields) {
    && prior.Keys <= hash.Keys
    && forall n :: n in hash ==> (n in prior && hash[n] == prior[n]) || FileMetadata(hash[n], n) in manifest
  }

  lemma PublishedWithin(ix: Index, r: Request, written: set<FileMetadata>, hash: Fields, known: set<string>, ix': Index)
    requires written <= Entries(r.manifest) && known <= CidsIn(Entries(r.manifest))
    requires PublishedAs(ix, r.metadata.rootCid, written, hash, known, ix')
    ensures ContentWithin(ix, r, ix')
    ensures ix'.parcelCid == ix.parcelCid && ix'.sceneParcels == ix.sceneParcels
  {
    var root := r.metadata.rootCid;
    forall n | n in HashOf(ix'.content, root)
      ensures || (n in HashOf(ix.content, root) && HashOf(ix'.content, root)[n] == HashOf(ix.content, root)[n])
              || FileMetadata(HashOf(ix'.content, root)[n], n) in r.manifest
    {
      if written != {} {
        OverwrittenChanges(HashOf(ix.content, root), written, hash, n);
      }
    }
  }

  lemma BoundaryWithin(ix: Index, r: Request, removed: set<string>, pushed: bool, k: nat, ix': Index)
    requires Boundary(ix, r.parcels, removed, pushed, k)
    requires ix' == Partial(ix, r.metadata.rootCid, r.parcels, removed, pushed, k)
    ensures ScenesWithin(ix, r, ix') && ix'.content == ix.content && ix'.uploaded == ix.uploaded
  {
    forall s | s !in Owners(ix, r.parcels)
      ensures |ListOf(ix', s)| >= |ListOf(ix, s)|
    {
      ListAtBoundary(ix, r.metadata.rootCid, r.parcels, removed, pushed, k, s);
    }
  }

  lemma PlacingWithin(ix: Index, r: Request, ix': Index)
    requires Placing(ix, r.metadata.rootCid, r.parcels, ix') || Finishing(Placed(ix, r.metadata.rootCid, r.parcels), r, ix')
    ensures ScenesWithin(ix, r, ix') && ix'.content == ix.content && ix'.uploaded == ix.uploaded
  {
    hide Partial, ScenesWithin;
    var root := r.metadata.rootCid;
    var whole := SetScene(ix, root, r.parcels);
    BoundaryWithin(ix, r, Owners(ix, r.parcels), true, |r.parcels|, whole);
    if Interrupted(ix, root, r.parcels, ix') {
      var removed, pushed, k :| Boundary(ix, r.parcels, removed, pushed, k)
        && ix' == Partial(ix, root, r.parcels, removed, pushed, k);
      BoundaryWithin(ix, r, removed, pushed, k, ix');
    } else {
      hide SetScene;
      FinishingKeeps(Placed(ix, root, r.parcels), r, ix');
      SameScenesWithin(ix, r, whole, ix');
    }
  }

  lemma FinishingKeeps(ix: Index, r: Request, ix': Index)
    ensures Finishing(ix, r, ix') ==>
              && ix'.parcelCid == ix.parcelCid && ix'.sceneParcels == ix.sceneParcels
              && ix'.content == ix.content && ix'.uploaded == ix.uploaded
  {
    var described, root, scene := Described(ix, r), r.metadata.rootCid, SceneCidOf(r.manifest);
    DescribedKeeps(ix, r);
    LinkKeeps(described, root, scene);
    LinkKeeps(Step(described, SetRootScene(root, scene)), scene, root);
    hide Described, Step, SceneCidOf;
  }

  lemma DescribedKeeps(ix: Index, r: Request)
    ensures var described := Described(ix, r);
            && described.parcelCid == ix.parcelCid && described.sceneParcels == ix.sceneParcels
            && described.content == ix.content && described.uploaded == ix.uploaded
  {
  }

  lemma LinkKeeps(ix: Index, key: string, cid: string)
    ensures var linked := Step(ix, SetRootScene(key, cid));
            && linked.parcelCid == ix.parcelCid && linked.sceneParcels == ix.sceneParcels
            && linked.content == ix.content && linked.uploaded == ix.uploaded
  {
  }

  lemma SameScenesWithin(ix: Index, r: Request, ix1: Index, ix2: Index)
    requires ScenesWithin(ix, r, ix1)
    requires ix2.parcelCid == ix1.parcelCid && ix2.sceneParcels == ix1.sceneParcels
    ensures ScenesWithin(ix, r, ix2)
  {
  }

  /** Whatever becomes of an upload, it changes no more than its own share. */
  lemma UploadWithin(st: State, r: Request, st': State)
    requires Committed(st, r, st') || Underway(st, r, st')
    ensures ScenesWithin(st.ix, r, st'.ix) && ContentWithin(st.ix, r, st'.ix)
    ensures exists done :: done <= r.files.Keys && st'.files == Saved(st.files, r.files, done)
              && (st'.ix == st.ix || done == r.files.Keys)
  {
    hide ScenesWithin, ContentWithin, PublishedAs, Placing, Finishing, Placed, Finish;
    var ix, ix', root := st.ix, st'.ix, r.metadata.rootCid;
    var entries := Entries(r.manifest);
    if ix' == ix {
      NothingWithin(ix, r);
    } else if Publishing(ix, root, entries, CidsIn(entries), ix') {
      var written, hash, known :| InTurn(entries, written, known) && known <= CidsIn(entries)
        && PublishedAs(ix, root, written, hash, known, ix');
      PublishedWithin(ix, r, written, hash, known, ix');
      NothingWithin(ix, r);
      SameScenesWithin(ix, r, ix, ix');
    } else {
      var mid :| Published(ix, root, entries, CidsIn(entries), mid)
        && (Placing(mid, root, r.parcels, ix') || Finishing(Placed(mid, root, r.parcels), r, ix')
            || ix' == Finish(Placed(mid, root, r.parcels), r));
      FinishIsFinishing(Placed(mid, root, r.parcels), r);
      var hash :| PublishedAs(ix, root, entries, hash, CidsIn(entries), mid);
      PublishedWithin(ix, r, entries, hash, CidsIn(entries), mid);
      PlacingWithin(mid, r, ix');
      MovedWithin(ix, mid, r, ix');
    }
  }

  lemma FinishIsFinishing(ix: Index, r: Request)
    ensures Finishing(ix, r, Finish(ix, r))
  {
  }

  lemma NothingWithin(ix: Index, r: Request)
    ensures ScenesWithin(ix, r, ix) && ContentWithin(ix, r, ix)
  {
  }

  lemma MovedWithin(ix: Index, mid: Index, r: Request, ix': Index)
    requires mid.parcelCid == ix.parcelCid && mid.sceneParcels == ix.sceneParcels
    requires ContentWithin(ix, r, mid) && ScenesWithin(mid, r, ix')
    requires ix'.content == mid.content && ix'.uploaded == mid.uploaded
    ensures ContentWithin(ix, r, ix') && ScenesWithin(ix, r, ix')
  {
    assert Owners(mid, r.parcels) == Owners(ix, r.parcels);
    assert forall s :: ListOf(mid, s) == ListOf(ix, s);
  }

  /** Names are recorded before their CID is marked: whatever becomes of an upload,
      every entry of a CID that it marked is recorded. */
  lemma MarkedIsRecorded(st: State, r: Request, st': State, m: FileMetadata)
    requires Committed(st, r, st') || Underway(st, r, st')
    requires m in r.manifest && m.cid in st'.ix.uploaded && m.cid !in st.ix.uploaded
    ensures m.name in HashOf(st'.ix.content, r.metadata.rootCid)
  {
    hide Overwritten, Placing, Finishing, Placed, Finish, CidsIn;
    var ix, ix', root := st.ix, st'.ix, r.metadata.rootCid;
    var entries := Entries(r.manifest);
    assert m in entries;
    if Publishing(ix, root, entries, CidsIn(entries), ix') {
      var written, hash, known :| InTurn(entries, written, known) && known <= CidsIn(entries)
        && PublishedAs(ix, root, written, hash, known, ix');
      RecordedAs(ix, root, written, hash, known, ix', m);
    } else {
      var mid :| Published(ix, root, entries, CidsIn(entries), mid)
        && (Placing(mid, root, r.parcels, ix') || Finishing(Placed(mid, root, r.parcels), r, ix')
            || ix' == Finish(Placed(mid, root, r.parcels), r));
      FinishIsFinishing(Placed(mid, root, r.parcels), r);
      PlacingWithin(mid, r, ix');
      var hash :| PublishedAs(ix, root, entries, hash, CidsIn(entries), mid);
      RecordedAs(ix, root, entries, hash, CidsIn(entries), mid, m);
    }
  }

  lemma RecordedAs(
      ix: Index, root: string, written: set<FileMetadata>, hash: Fields, known: set<string>, ix': Index, e: FileMetadata)
    requires PublishedAs(ix, root, written, hash, known, ix') && e in written
    ensures e.name in HashOf(ix'.content, root)
  {
  }

  // ---------- authorised change only ----------

  /** The key of the attempt was granted access to the parcel. */
  predicate Authorises(a: Attempt, p: string) {
    p in a.request.parcels && Verdict(a.env.land, a.request.metadata.pubKey, p) == Granted
  }

  /** The attempt names the parcel, and its key was granted the coordinates. */
  ghost predicate WasGranted(a: Attempt, p: string) {
    && p in a.request.parcels
    && forall x, y :: Int64(x) && Int64(y) && p == Id(x, y) ==> a.env.land(a.request.metadata.pubKey, x, y) == Granted
  }

  lemma AuthorisedIsGranted(a: Attempt, p: string)
    requires Authorises(a, p)
    ensures WasGranted(a, p)
  {
    GrantedIsAt(a.env.land, a.request.metadata.pubKey, p);
    hide Id, Verdict;
  }

  lemma StepIsAuthorised(h: Hashing, limit: int, st: State, a: Attempt, st': State)
    requires Attempted(h, limit, st, a, st')
    ensures forall p :: Lookup(st'.ix.parcelCid, p) != Lookup(st.ix.parcelCid, p) ==> Authorises(a, p)
    ensures forall s :: ListOf(st.ix, s) != [] && ListOf(st'.ix, s) == [] ==>
              exists p :: Authorises(a, p) && CidOf(st.ix, p) == s
  {
    hide Committed, Underway, TreeOf, Verdict;
    if st' != st {
      var r := a.request;
      UploadWithin(st, r, st');
      forall s | ListOf(st.ix, s) != [] && ListOf(st'.ix, s) == []
        ensures exists p :: Authorises(a, p) && CidOf(st.ix, p) == s
      {
        assert s in Owners(st.ix, r.parcels);
        var p :| p in r.parcels && CidOf(st.ix, p) == s;
        assert Authorises(a, p);
      }
    }
  }

  /** Over every run, a parcel maps to another CID later on only if some attempt
      in between was authorised for that parcel. */
  lemma {:induction false} ParcelChangesAreAuthorised(
      h: Hashing, limit: int, states: seq<State>, attempts: seq<Attempt>, i: nat, j: nat, p: string)
    requires IsRun(h, limit, states, attempts) && i <= j <= |attempts|
    requires Lookup(states[i].ix.parcelCid, p) != Lookup(states[j].ix.parcelCid, p)
    ensures exists k :: i <= k < j && Authorises(attempts[k], p)
    ensures exists k :: i <= k < j && WasGranted(attempts[k], p)
    decreases j
  {
    hide Attempted, Authorises, WasGranted;
    forall k | i <= k < j && Authorises(attempts[k], p)
      ensures WasGranted(attempts[k], p)
    {
      AuthorisedIsGranted(attempts[k], p);
    }
    StepIsAuthorised(h, limit, states[j - 1], attempts[j - 1], states[j]);
    if Lookup(states[j - 1].ix.parcelCid, p) == Lookup(states[j].ix.parcelCid, p) {
      ParcelChangesAreAuthorised(h, limit, states, attempts, i, j - 1, p);
    }
  }

  /** Over every run, a scene's list is emptied only by an attempt authorised for
      a parcel that mapped to the scene at that moment. */
  lemma {:induction false} EvictionsAreAuthorised(
      h: Hashing, limit: int, states: seq<State>, attempts: seq<Attempt>, i: nat, j: nat, s: string)
    requires IsRun(h, limit, states, attempts) && i <= j <= |attempts|
    requires ListOf(states[i].ix, s) != [] && ListOf(states[j].ix, s) == []
    ensures exists k, p :: i <= k < j && Authorises(attempts[k], p) && CidOf(states[k].ix, p) == s && WasGranted(attempts[k], p)
    decreases j
  {
    hide Attempted, Authorises, WasGranted;
    forall k, p | i <= k < j && Authorises(attempts[k], p)
      ensures WasGranted(attempts[k], p)
    {
      AuthorisedIsGranted(attempts[k], p);
    }
    if ListOf(states[j - 1].ix, s) == [] {
      EvictionsAreAuthorised(h, limit, states, attempts, i, j - 1, s);
    } else {
      StepIsAuthorised(h, limit, states[j - 1], attempts[j - 1], states[j]);
    }
  }

  // ---------- size ----------

  /** The tree of an accepted upload is no larger than its parcels allow. */
  lemma AcceptedTreeIsBounded(h: Hashing, limit: int, env: Outside, store: Files, r: Request)
    requires Acceptable(h, limit, env, store, r)
    ensures TotalSize(TreeOf(h, r.files, store, r.manifest)) <= |r.parcels| * limit
  {
    EstimateBoundsTree(h, r.files, store, r.manifest);
  }

  // ---------- the uploaded-content cache ----------

  function DirectoryCids(manifest: seq<FileMetadata>): set<string> {
    set m | m in manifest && IsDir(m.name) :: m.cid
  }

  lemma DirectoryCidsInPlainTerms(manifest: seq<FileMetadata>, c: string)
    ensures c in DirectoryCids(manifest) <==>
              exists m :: m in manifest && m.cid == c && m.name != "" && m.name[|m.name| - 1] == '/'
  {
    if m :| m in manifest && m.cid == c && m.name != "" && m.name[|m.name| - 1] == '/' {
      assert IsDir(m.name) && m.cid in DirectoryCids(manifest);
    }
  }

  /** Every CID marked as stored is stored, or was named by a directory entry. */
  predicate CacheSound(st: State, dirs: set<string>) {
    st.ix.uploaded <= st.files.Keys + dirs
  }

  lemma UploadKeepsCacheSound(h: Hashing, limit: int, st: State, a: Attempt, st': State, dirs: set<string>)
    requires Attempted(h, limit, st, a, st') && CacheSound(st, dirs)
    ensures CacheSound(st', dirs + DirectoryCids(a.request.manifest))
  {
    hide Committed, Underway, TreeOf, AllGranted, SignatureError;
    if st' != st {
      var r := a.request;
      UploadWithin(st, r, st');
      var done :| done <= r.files.Keys && st'.files == Saved(st.files, r.files, done)
        && (st'.ix == st.ix || done == r.files.Keys);
      forall c | c in st'.ix.uploaded && c !in st.ix.uploaded
        ensures c in st'.files.Keys + DirectoryCids(r.manifest)
      {
        var m :| m in Entries(r.manifest) && m.cid == c;
        assert !IsDir(m.name) ==> Source(r.files, st.files, m.cid).Some?;
      }
    }
  }
}
