/** The promise of content addressing: what is stored under a root can be fetched
    and hashed again to that root. A successful upload of an unambiguous manifest
    makes it so, whatever the rest of the store holds, and it stays so as long as
    no later upload saves a wrong file under a CID that the root records. Exactly
    when a single upload keeps it is proved for every outcome, and RoundTripBreaks
    exhibits two acceptable uploads that break it. */
module RoundTrip {
  import opened SceneIndex
  import opened Metadata
  import opened Storage
  import opened Authorization
  import opened UploadRequest
  import opened UploadEffect
  import opened UploadService
  import opened UploadRuns

  /** The CIDs of the given directories do not collide. */
  predicate CollisionFree(h: Hashing, seen: set<Directory>) {
    forall s, t :: s in seen && t in seen && h.dir(s) == h.dir(t) ==> s == t
  }

  /** Every stored file hashes to its name. */
  predicate StoreSound(h: Hashing, store: Files) {
    forall cid :: cid in store ==> h.file(store[cid]) == cid
  }

  /** The file names stored under a root. */
  function FileNames(ix: Index, root: string): set<string> {
    set n | n in HashOf(ix.content, root) && !IsDir(n)
  }

  /** They are the recorded names that do not end in a slash. */
  lemma FileNamesInPlainTerms(ix: Index, root: string, n: string)
    ensures n in FileNames(ix, root) <==>
              root in ix.content && n in ix.content[root] && (n == "" || n[|n| - 1] != '/')
  {
  }

  /** The places and CIDs recorded under a root. */
  function Recorded(h: Hashing, ix: Index, root: string): Directory {
    set n | n in FileNames(ix, root) :: (h.place(n), HashOf(ix.content, root)[n])
  }

  predicate AllStored(st: State, root: string) {
    forall n :: n in FileNames(st.ix, root) ==> HashOf(st.ix.content, root)[n] in st.files
  }

  /** Look up each file name stored under root, fetch its CID, hash the bytes. */
  function Rebuilt(h: Hashing, st: State, root: string): Directory
    requires AllStored(st, root)
  {
    set n | n in FileNames(st.ix, root) :: (h.place(n), h.file(st.files[HashOf(st.ix.content, root)[n]]))
  }

  /** Every file of the root is stored, and rebuilding gives the directory d. */
  predicate RebuildsTo(h: Hashing, st: State, root: string, d: Directory) {
    AllStored(st, root) && Rebuilt(h, st, root) == d
  }

  /** Every file of the root is stored, and the rebuilt directory has the root as its CID. */
  predicate Verifies(h: Hashing, st: State, root: string) {
    AllStored(st, root) && h.dir(Rebuilt(h, st, root)) == root
  }

  /** Everything recorded under the root is stored and hashes to its CID. */
  predicate SoundAt(h: Hashing, st: State, root: string) {
    AllStored(st, root)
    && forall n :: n in FileNames(st.ix, root) ==>
         var cid := HashOf(st.ix.content, root)[n]; h.file(st.files[cid]) == cid
  }

  /** What is recorded under root is part of a directory with that CID. */
  predicate Rooted(h: Hashing, seen: set<Directory>, ix: Index, root: string) {
    forall n :: n in FileNames(ix, root) ==> Belongs(h, seen, root, h.place(n), HashOf(ix.content, root)[n])
  }

  predicate Belongs(h: Hashing, seen: set<Directory>, root: string, place: string, cid: string) {
    exists d :: d in seen && h.dir(d) == root && (place, cid) in d
  }

  /** The uploaded files are files that the manifest names. */
  predicate KeysTidy(r: Request) {
    forall cid :: cid in r.files ==> exists m :: m in r.manifest && !IsDir(m.name) && m.cid == cid
  }

  /** With a sound store, rebuilding yields what is recorded. */
  lemma RebuiltIsRecorded(h: Hashing, st: State, root: string)
    requires SoundAt(h, st, root)
    ensures Rebuilt(h, st, root) == Recorded(h, st.ix, root)
  {
  }

  // ---------- one upload and the store ----------

  /** The files a single upload has saved, whatever became of it. */
  lemma SavedFiles(st: State, r: Request, st': State) returns (done: set<string>)
    requires Committed(st, r, st') || Underway(st, r, st')
    ensures done <= r.files.Keys && st'.files == Saved(st.files, r.files, done)
    ensures Committed(st, r, st') ==> done == r.files.Keys
  {
    if Committed(st, r, st') {
      done := r.files.Keys;
    } else {
      UploadWithin(st, r, st');
      done :| done <= r.files.Keys && st'.files == Saved(st.files, r.files, done)
        && (st'.ix == st.ix || done == r.files.Keys);
    }
  }

  /** Whether it succeeds or fails, an upload keeps the store sound exactly when
      each file it saved has the CID it was saved under. */
  lemma StoreStaysSoundIff(h: Hashing, st: State, r: Request, st': State, done: set<string>)
    requires StoreSound(h, st.files) && done <= r.files.Keys && st'.files == Saved(st.files, r.files, done)
    ensures StoreSound(h, st'.files) <==> forall cid :: cid in done ==> h.file(r.files[cid].data) == cid
  {
    assert forall cid :: cid in done ==> cid in st'.files && st'.files[cid] == r.files[cid].data;
  }

  /** In an acceptable request the files the manifest names have their CIDs. */
  lemma NamedFilesAreSound(h: Hashing, limit: int, env: Outside, store: Files, r: Request)
    requires Acceptable(h, limit, env, store, r) && KeysTidy(r)
    ensures forall cid :: cid in r.files ==> h.file(r.files[cid].data) == cid
  {
    hide TreeOf, AllGranted, SignatureError;
    forall cid | cid in r.files
      ensures h.file(r.files[cid].data) == cid
    {
      var m :| m in r.manifest && !IsDir(m.name) && m.cid == cid;
      assert EntryValid(h, r.files, store, m);
    }
  }

  lemma StoreStaysSound(h: Hashing, limit: int, st: State, a: Attempt, st': State)
    requires Attempted(h, limit, st, a, st') && KeysTidy(a.request) && StoreSound(h, st.files)
    ensures StoreSound(h, st'.files) && st.files.Keys <= st'.files.Keys
  {
    hide Acceptable, Committed, Underway, KeysTidy;
    if st' != st {
      var done := SavedFiles(st, a.request, st');
      NamedFilesAreSound(h, limit, a.env, st.files, a.request);
      StoreStaysSoundIff(h, st, a.request, st', done);
    }
  }

  // ---------- one upload and the other roots ----------

  /** The recorded CIDs of q that an upload saved bytes for keep their hash. */
  predicate Harmless(h: Hashing, st: State, q: string, r: Request, done: set<string>)
    requires done <= r.files.Keys
  {
    forall n :: n in FileNames(st.ix, q) && HashOf(st.ix.content, q)[n] in done ==>
      h.file(r.files[HashOf(st.ix.content, q)[n]].data) == HashOf(st.ix.content, q)[n]
  }

  predicate OneCidForEachPlace(h: Hashing, ix: Index, q: string) {
    forall n, m :: n in FileNames(ix, q) && m in FileNames(ix, q) && h.place(n) == h.place(m) ==>
      HashOf(ix.content, q)[n] == HashOf(ix.content, q)[m]
  }

  /** st' holds for root q what st held, with some uploaded files written over it. */
  predicate OnlyFilesMoved(st: State, r: Request, st': State, done: set<string>, q: string) {
    && done <= r.files.Keys && st'.files == Saved(st.files, r.files, done)
    && HashOf(st'.ix.content, q) == HashOf(st.ix.content, q)
  }

  lemma HarmlessRebuilds(h: Hashing, st: State, r: Request, st': State, done: set<string>, q: string)
    requires OnlyFilesMoved(st, r, st', done, q) && SoundAt(h, st, q) && Harmless(h, st, q, r, done)
    ensures SoundAt(h, st', q) && Recorded(h, st'.ix, q) == Recorded(h, st.ix, q)
  {
  }

  lemma RebuildsHarmlessly(h: Hashing, st: State, r: Request, st': State, done: set<string>, q: string)
    requires OnlyFilesMoved(st, r, st', done, q) && OneCidForEachPlace(h, st.ix, q)
    requires RebuildsTo(h, st', q, Recorded(h, st.ix, q))
    ensures Harmless(h, st, q, r, done)
  {
    var hash := HashOf(st.ix.content, q);
    assert FileNames(st'.ix, q) == FileNames(st.ix, q);
    forall n | n in FileNames(st.ix, q) && hash[n] in done
      ensures h.file(r.files[hash[n]].data) == hash[n]
    {
      assert (h.place(n), h.file(st'.files[hash[n]])) in Rebuilt(h, st', q);
      var m :| m in FileNames(st.ix, q) && (h.place(m), hash[m]) == (h.place(n), h.file(st'.files[hash[n]]));
    }
  }

  /** Whatever becomes of an upload, another root goes on rebuilding to its
      directory exactly when every file saved under a CID that the root records
      has that CID. Its manifest and directory play no part. */
  lemma OtherRootRebuildsIff(h: Hashing, st: State, r: Request, st': State, done: set<string>, q: string, d: Directory)
    requires Committed(st, r, st') || Underway(st, r, st')
    requires done <= r.files.Keys && st'.files == Saved(st.files, r.files, done)
    requires q != r.metadata.rootCid
    requires SoundAt(h, st, q) && RebuildsTo(h, st, q, d) && OneCidForEachPlace(h, st.ix, q)
    ensures RebuildsTo(h, st', q, d) <==> Harmless(h, st, q, r, done)
  {
    UploadWithin(st, r, st');
    RebuiltIsRecorded(h, st, q);
    assert OnlyFilesMoved(st, r, st', done, q);
    hide Committed, Underway, OneCidForEachPlace, Rebuilt, Recorded, FileNames, ContentWithin, ScenesWithin, OnlyFilesMoved;
    if Harmless(h, st, q, r, done) {
      HarmlessRebuilds(h, st, r, st', done, q);
      RebuiltIsRecorded(h, st', q);
    }
    if RebuildsTo(h, st', q, d) {
      RebuildsHarmlessly(h, st, r, st', done, q);
    }
  }

  // ---------- one upload and its own root ----------

  /** An acceptable unambiguous request names a directory whose CID is its root. */
  lemma ManifestIsRoot(h: Hashing, limit: int, env: Outside, store: Files, r: Request)
    requires Acceptable(h, limit, env, store, r) && Unambiguous(h, r.manifest)
    ensures h.dir(ManifestLeaves(h, r.manifest)) == r.metadata.rootCid
  {
    LeavesOfTree(h, r.files, store, r.manifest);
  }

  /** A name recorded after a step was recorded before or is in the manifest. */
  lemma RecordedNames(h: Hashing, limit: int, st: State, a: Attempt, st': State, q: string, n: string)
    requires Attempted(h, limit, st, a, st') && n in FileNames(st'.ix, q)
    ensures || (n in FileNames(st.ix, q) && HashOf(st'.ix.content, q)[n] == HashOf(st.ix.content, q)[n])
            || (st' != st && q == a.request.metadata.rootCid
                && FileMetadata(HashOf(st'.ix.content, q)[n], n) in a.request.manifest)
  {
    hide Acceptable, Committed, Underway;
    if st' != st {
      UploadWithin(st, a.request, st');
    }
  }

  lemma NamesAreKept(h: Hashing, limit: int, st: State, a: Attempt, st': State, q: string)
    requires Attempted(h, limit, st, a, st')
    ensures FileNames(st.ix, q) <= FileNames(st'.ix, q)
  {
    hide Acceptable, Committed, Underway;
    if st' != st {
      UploadWithin(st, a.request, st');
    }
  }

  /** What is already recorded under the root of r is part of its tree. */
  predicate Agrees(h: Hashing, st: State, r: Request) {
    Recorded(h, st.ix, r.metadata.rootCid) <= Leaves(h, TreeOf(h, r.files, st.files, r.manifest))
  }

  lemma InLeaves(h: Hashing, r: Request, m: FileMetadata)
    requires m in r.manifest && !IsDir(m.name)
    ensures (h.place(m.name), m.cid) in ManifestLeaves(h, r.manifest)
  {
  }

  lemma CommittedIsAttempted(h: Hashing, limit: int, st: State, a: Attempt, st': State)
    requires Acceptable(h, limit, a.env, st.files, a.request) && Committed(st, a.request, st')
    ensures Attempted(h, limit, st, a, st')
  {
  }

  /** Once all files of an acceptable upload are saved, each file its manifest names
      has its CID, whatever else was saved and whatever the store held before. */
  lemma NamedFilesAreSaved(h: Hashing, limit: int, env: Outside, store: Files, r: Request, m: FileMetadata)
    requires Acceptable(h, limit, env, store, r) && m in r.manifest && !IsDir(m.name)
    ensures var store' := Saved(store, r.files, r.files.Keys); m.cid in store' && h.file(store'[m.cid]) == m.cid
  {
    hide TreeOf, AllGranted, SignatureError;
    assert EntryValid(h, r.files, store, m);
  }

  lemma LeavesAreSaved(h: Hashing, limit: int, env: Outside, store: Files, r: Request, place: string, cid: string)
    requires Acceptable(h, limit, env, store, r) && (place, cid) in ManifestLeaves(h, r.manifest)
    ensures var store' := Saved(store, r.files, r.files.Keys); cid in store' && h.file(store'[cid]) == cid
  {
    hide Acceptable, Saved;
    var m :| m in r.manifest && !IsDir(m.name) && (h.place(m.name), m.cid) == (place, cid);
    NamedFilesAreSaved(h, limit, env, store, r, m);
  }

  lemma CommittedFiles(st: State, r: Request, st': State)
    requires Committed(st, r, st')
    ensures st'.files == Saved(st.files, r.files, r.files.Keys)
  {
  }

  /** After a successful upload its root rebuilds to the tree that was checked, if
      its content hash was new or agreed. Neither collisions nor other files in the
      store or in the request play a part. */
  lemma UploadRebuilds(h: Hashing, limit: int, st: State, a: Attempt, st': State)
    requires Acceptable(h, limit, a.env, st.files, a.request) && Committed(st, a.request, st')
    requires Agrees(h, st, a.request) && Unambiguous(h, a.request.manifest)
    ensures SoundAt(h, st', a.request.metadata.rootCid)
    ensures Recorded(h, st'.ix, a.request.metadata.rootCid) == ManifestLeaves(h, a.request.manifest)
    ensures RebuildsTo(h, st', a.request.metadata.rootCid, ManifestLeaves(h, a.request.manifest))
    ensures Verifies(h, st', a.request.metadata.rootCid)
  {
    ManifestIsRoot(h, limit, a.env, st.files, a.request);
    UploadRecords(h, limit, st, a, st');
    hide Rebuilt, Recorded, Committed, Acceptable;
    RebuiltIsRecorded(h, st', a.request.metadata.rootCid);
  }

  /** With no ambiguity, what a successful upload records is what is in its manifest. */
  lemma UploadRecords(h: Hashing, limit: int, st: State, a: Attempt, st': State)
    requires Acceptable(h, limit, a.env, st.files, a.request) && Committed(st, a.request, st')
    requires Agrees(h, st, a.request) && Unambiguous(h, a.request.manifest)
    ensures SoundAt(h, st', a.request.metadata.rootCid)
    ensures Recorded(h, st'.ix, a.request.metadata.rootCid) == ManifestLeaves(h, a.request.manifest)
  {
    var r, root := a.request, a.request.metadata.rootCid;
    var leaves := ManifestLeaves(h, r.manifest);
    var hash := HashOf(st'.ix.content, root);
    LeavesOfTree(h, r.files, st.files, r.manifest);
    CommittedIsAttempted(h, limit, st, a, st');
    CommittedRecords(st, r, st');
    CommittedFiles(st, r, st');
    hide TreeOf, Leaves, Acceptable, Committed, Saved, Attempted;
    forall n | n in FileNames(st'.ix, root)
      ensures (h.place(n), hash[n]) in leaves && hash[n] in st'.files && h.file(st'.files[hash[n]]) == hash[n]
    {
      RecordedNames(h, limit, st, a, st', root, n);
      if FileMetadata(hash[n], n) in r.manifest {
        InLeaves(h, r, FileMetadata(hash[n], n));
      } else {
        assert (h.place(n), hash[n]) in Recorded(h, st.ix, root);
      }
      LeavesAreSaved(h, limit, a.env, st.files, r, h.place(n), hash[n]);
    }
    forall m | m in r.manifest && !IsDir(m.name)
      ensures (h.place(m.name), m.cid) in Recorded(h, st'.ix, root)
    {
      assert m.name in FileNames(st'.ix, root);
      SameLeaf(h, r, m, hash[m.name]);
    }
  }

  /** One place has one CID in an unambiguous manifest. */
  lemma SameLeaf(h: Hashing, r: Request, m: FileMetadata, cid: string)
    requires Unambiguous(h, r.manifest) && m in r.manifest && !IsDir(m.name)
    requires (h.place(m.name), cid) in ManifestLeaves(h, r.manifest)
    ensures cid == m.cid
  {
    var e :| e in r.manifest && !IsDir(e.name) && h.place(e.name) == h.place(m.name) && e.cid == cid;
  }

  /** A completed upload has recorded every name of its manifest. */
  lemma CommittedRecords(st: State, r: Request, st': State)
    requires Committed(st, r, st')
    ensures forall m :: m in r.manifest ==> m.name in HashOf(st'.ix.content, r.metadata.rootCid)
  {
    hide SetScene, FieldsOf, SceneCidOf;
    var root, entries := r.metadata.rootCid, Entries(r.manifest);
    var mid :| Published(st.ix, root, entries, CidsIn(entries), mid) && st'.ix == Finish(Placed(mid, root, r.parcels), r);
    PlacingWithin(mid, r, st'.ix);
    forall m | m in r.manifest
      ensures m.name in HashOf(mid.content, root)
    {
      assert m in entries;
    }
  }

  /** With distinct names, a successful upload's root rebuilds to the tree that was
      checked exactly if no two of its files claim one place with two CIDs. The
      service does not ask for that. */
  lemma UploadRebuildsIff(h: Hashing, limit: int, st: State, a: Attempt, st': State)
    requires Acceptable(h, limit, a.env, st.files, a.request) && Committed(st, a.request, st')
    requires Agrees(h, st, a.request) && DistinctNames(a.request.manifest)
    ensures RebuildsTo(h, st', a.request.metadata.rootCid, Leaves(h, TreeOf(h, a.request.files, st.files, a.request.manifest)))
            <==> Unambiguous(h, a.request.manifest)
  {
    var r, root := a.request, a.request.metadata.rootCid;
    var tree := TreeOf(h, r.files, st.files, r.manifest);
    LeavesOfTree(h, r.files, st.files, r.manifest);
    CommittedFiles(st, r, st');
    RecordsDistinctNames(st, r, st');
    hide Committed, TreeOf, DistinctNames, Agrees, Acceptable, Saved;
    if Unambiguous(h, r.manifest) {
      UploadRebuilds(h, limit, st, a, st');
    }
    if RebuildsTo(h, st', root, Leaves(h, tree)) {
      forall m, e | m in r.manifest && e in r.manifest && !IsDir(m.name) && !IsDir(e.name) && h.place(m.name) == h.place(e.name)
        ensures m.cid == e.cid
      {
        NamedFilesAreSaved(h, limit, a.env, st.files, r, m);
        NamedFilesAreSaved(h, limit, a.env, st.files, r, e);
        assert m.name in FileNames(st'.ix, root) && e.name in FileNames(st'.ix, root);
        assert (h.place(m.name), h.file(st'.files[m.cid])) in Rebuilt(h, st', root);
        assert (h.place(e.name), h.file(st'.files[e.cid])) in Rebuilt(h, st', root);
        assert h.file(st'.files[m.cid]) == h.file(tree[h.place(m.name)]) == h.file(st'.files[e.cid]);
      }
    }
  }

  /** With distinct names, a completed upload records for each name its CID. */
  lemma RecordsDistinctNames(st: State, r: Request, st': State)
    requires Committed(st, r, st') && DistinctNames(r.manifest)
    ensures forall m :: m in r.manifest ==>
              m.name in HashOf(st'.ix.content, r.metadata.rootCid) && HashOf(st'.ix.content, r.metadata.rootCid)[m.name] == m.cid
  {
    OutcomeIsDetermined(st, r, st');
    OutcomeContent(st, r);
    NameMapIs(r.manifest);
    hide Committed, Outcome, NameMap;
    assert forall m :: m in r.manifest ==> m.name in NameMap(r.manifest) by {
      assert forall m :: m in r.manifest ==> m in Entries(r.manifest);
    }
  }

  // ---------- what is recorded belongs to its root ----------

  /** If it is an upload of root q: its manifest is unambiguous and its directory is
      among those seen. */
  predicate Fits(h: Hashing, seen: set<Directory>, r: Request, q: string) {
    r.metadata.rootCid == q ==> Unambiguous(h, r.manifest) && ManifestLeaves(h, r.manifest) in seen
  }

  lemma RootedKept(h: Hashing, seen: set<Directory>, limit: int, st: State, a: Attempt, st': State, q: string)
    requires Attempted(h, limit, st, a, st') && Fits(h, seen, a.request, q) && Rooted(h, seen, st.ix, q)
    ensures Rooted(h, seen, st'.ix, q)
  {
    hide Acceptable, Committed, Underway, Unambiguous;
    forall n | n in FileNames(st'.ix, q)
      ensures Belongs(h, seen, q, h.place(n), HashOf(st'.ix.content, q)[n])
    {
      RecordedNames(h, limit, st, a, st', q, n);
      var m := FileMetadata(HashOf(st'.ix.content, q)[n], n);
      if st' != st && q == a.request.metadata.rootCid && m in a.request.manifest {
        ManifestIsRoot(h, limit, a.env, st.files, a.request);
        InLeaves(h, a.request, m);
      }
    }
  }

  /** Without collisions what is recorded under a root agrees with every acceptable
      unambiguous manifest for it. */
  lemma RootedAgrees(h: Hashing, seen: set<Directory>, limit: int, env: Outside, st: State, r: Request)
    requires CollisionFree(h, seen) && Rooted(h, seen, st.ix, r.metadata.rootCid)
    requires Acceptable(h, limit, env, st.files, r) && Fits(h, seen, r, r.metadata.rootCid)
    ensures Agrees(h, st, r)
  {
    LeavesOfTree(h, r.files, st.files, r.manifest);
    ManifestIsRoot(h, limit, env, st.files, r);
    hide Unambiguous, Acceptable, TreeOf, Leaves;
    var root := r.metadata.rootCid;
    forall n | n in FileNames(st.ix, root)
      ensures (h.place(n), HashOf(st.ix.content, root)[n]) in ManifestLeaves(h, r.manifest)
    {
      assert Belongs(h, seen, root, h.place(n), HashOf(st.ix.content, root)[n]);
    }
  }

  /** A recorded name keeps its CID. */
  lemma StillThere(h: Hashing, seen: set<Directory>, limit: int, st: State, a: Attempt, st': State, q: string, n: string)
    requires CollisionFree(h, seen) && Attempted(h, limit, st, a, st') && Fits(h, seen, a.request, q)
    requires Rooted(h, seen, st.ix, q) && n in FileNames(st.ix, q)
    ensures n in FileNames(st'.ix, q) && HashOf(st'.ix.content, q)[n] == HashOf(st.ix.content, q)[n]
  {
    hide Acceptable, Committed, Underway, Unambiguous;
    NamesAreKept(h, limit, st, a, st', q);
    RecordedNames(h, limit, st, a, st', q, n);
    if HashOf(st'.ix.content, q)[n] != HashOf(st.ix.content, q)[n] {
      var m := FileMetadata(HashOf(st'.ix.content, q)[n], n);
      ManifestIsRoot(h, limit, a.env, st.files, a.request);
      InLeaves(h, a.request, m);
      assert Belongs(h, seen, q, h.place(n), HashOf(st.ix.content, q)[n]);
      SameLeaf(h, a.request, m, HashOf(st.ix.content, q)[n]);
    }
  }

  // ---------- the root in later states ----------

  /** What is asked of an accepted attempt about root q: of an upload of q itself,
      that it fits the directories seen; of any other, that the files it may save
      under CIDs recorded for q have those CIDs. */
  predicate Spares(h: Hashing, seen: set<Directory>, st: State, r: Request, q: string) {
    Fits(h, seen, r, q) && (r.metadata.rootCid != q ==> Harmless(h, st, q, r, r.files.Keys))
  }

  /** An acceptable upload that saves only files its manifest names harms no root. */
  lemma TidyIsHarmless(h: Hashing, limit: int, env: Outside, st: State, r: Request, q: string)
    requires Acceptable(h, limit, env, st.files, r) && KeysTidy(r)
    ensures Harmless(h, st, q, r, r.files.Keys)
  {
    NamedFilesAreSound(h, limit, env, st.files, r);
  }

  /** The root records the directory d, and each of its files is stored and sound. */
  predicate Holds(h: Hashing, st: State, q: string, d: Directory) {
    SoundAt(h, st, q) && Recorded(h, st.ix, q) == d
  }

  lemma HoldsIsRebuilds(h: Hashing, st: State, q: string, d: Directory)
    requires SoundAt(h, st, q)
    ensures Holds(h, st, q, d) <==> RebuildsTo(h, st, q, d)
  {
    RebuiltIsRecorded(h, st, q);
    hide Rebuilt, Recorded;
  }

  lemma HoldsAfterOthers(h: Hashing, limit: int, st: State, a: Attempt, st': State, q: string, d: Directory)
    requires Attempted(h, limit, st, a, st') && st' != st && a.request.metadata.rootCid != q
    requires Holds(h, st, q, d) && Harmless(h, st, q, a.request, a.request.files.Keys)
    ensures Holds(h, st', q, d)
  {
    hide Acceptable, Committed, Underway, Recorded;
    UploadWithin(st, a.request, st');
    var done := SavedFiles(st, a.request, st');
    HarmlessRebuilds(h, st, a.request, st', done, q);
  }

  /** A leaf of the manifest that was or is recorded has a sound file. */
  lemma RecordedIsSound(h: Hashing, limit: int, st: State, a: Attempt, st': State, place: string, cid: string)
    requires Attempted(h, limit, st, a, st') && st' != st
    requires (place, cid) in ManifestLeaves(h, a.request.manifest)
    requires st'.ix != st.ix || (cid in st.files && h.file(st.files[cid]) == cid)
    ensures cid in st'.files && h.file(st'.files[cid]) == cid
  {
    LeavesAreSaved(h, limit, a.env, st.files, a.request, place, cid);
    hide Acceptable, Committed, Underway, ManifestLeaves, ContentWithin, ScenesWithin;
    UploadWithin(st, a.request, st');
    var r := a.request;
    var done :| done <= r.files.Keys && st'.files == Saved(st.files, r.files, done) && (st'.ix == st.ix || done == r.files.Keys);
  }

  /** Collision freedom makes the manifest of another upload of q the directory d. */
  lemma SameDirectory(
      h: Hashing, seen: set<Directory>, limit: int, env: Outside, store: Files, r: Request, q: string, d: Directory)
    requires CollisionFree(h, seen) && d in seen && h.dir(d) == q
    requires Acceptable(h, limit, env, store, r) && Fits(h, seen, r, q) && r.metadata.rootCid == q
    ensures ManifestLeaves(h, r.manifest) == d
  {
    ManifestIsRoot(h, limit, env, store, r);
  }

  lemma HoldsIsRooted(h: Hashing, seen: set<Directory>, st: State, q: string, d: Directory)
    requires Holds(h, st, q, d) && d in seen && h.dir(d) == q
    ensures Rooted(h, seen, st.ix, q)
  {
    forall n | n in FileNames(st.ix, q)
      ensures Belongs(h, seen, q, h.place(n), HashOf(st.ix.content, q)[n])
    {
      assert (h.place(n), HashOf(st.ix.content, q)[n]) in Recorded(h, st.ix, q);
    }
  }

  /** After an upload of q with the directory d, all that q records is sound and in d. */
  lemma OwnIsWithin(h: Hashing, limit: int, st: State, a: Attempt, st': State, q: string, d: Directory)
    requires Attempted(h, limit, st, a, st') && st' != st && a.request.metadata.rootCid == q
    requires ManifestLeaves(h, a.request.manifest) == d && Holds(h, st, q, d)
    ensures SoundAt(h, st', q) && Recorded(h, st'.ix, q) <= d
  {
    hide Attempted, ManifestLeaves;
    var prior, hash := HashOf(st.ix.content, q), HashOf(st'.ix.content, q);
    forall n | n in FileNames(st'.ix, q)
      ensures (h.place(n), hash[n]) in d && hash[n] in st'.files && h.file(st'.files[hash[n]]) == hash[n]
    {
      RecordedNames(h, limit, st, a, st', q, n);
      if n in FileNames(st.ix, q) && hash[n] == prior[n] {
        assert (h.place(n), prior[n]) in Recorded(h, st.ix, q);
      } else {
        InLeaves(h, a.request, FileMetadata(hash[n], n));
      }
      RecordedIsSound(h, limit, st, a, st', h.place(n), hash[n]);
    }
  }

  lemma HoldsAfterOwn(h: Hashing, seen: set<Directory>, limit: int, st: State, a: Attempt, st': State, q: string, d: Directory)
    requires CollisionFree(h, seen) && d in seen && h.dir(d) == q
    requires Attempted(h, limit, st, a, st') && st' != st && Fits(h, seen, a.request, q) && a.request.metadata.rootCid == q
    requires Holds(h, st, q, d)
    ensures Holds(h, st', q, d)
  {
    SameDirectory(h, seen, limit, a.env, st.files, a.request, q, d);
    OwnIsWithin(h, limit, st, a, st', q, d);
    HoldsIsRooted(h, seen, st, q, d);
    hide Attempted, Fits, CollisionFree, ManifestLeaves, SoundAt, Rooted;
    var prior := HashOf(st.ix.content, q);
    forall n | n in FileNames(st.ix, q)
      ensures (h.place(n), prior[n]) in Recorded(h, st'.ix, q)
    {
      StillThere(h, seen, limit, st, a, st', q, n);
    }
  }

  /** A root whose files are sound and that rebuilds to its directory goes on doing
      so after every later attempt that spares it. */
  lemma RebuildsForEver(h: Hashing, seen: set<Directory>, limit: int, st: State, a: Attempt, st': State, q: string, d: Directory)
    requires CollisionFree(h, seen) && d in seen && h.dir(d) == q
    requires Attempted(h, limit, st, a, st') && (st' != st ==> Spares(h, seen, st, a.request, q))
    requires SoundAt(h, st, q) && RebuildsTo(h, st, q, d)
    ensures SoundAt(h, st', q) && RebuildsTo(h, st', q, d)
  {
    hide Attempted, SoundAt, RebuildsTo, CollisionFree, Fits, Harmless, Recorded;
    HoldsIsRebuilds(h, st, q, d);
    if st' != st {
      if a.request.metadata.rootCid == q {
        HoldsAfterOwn(h, seen, limit, st, a, st', q, d);
      } else {
        HoldsAfterOthers(h, limit, st, a, st', q, d);
      }
      HoldsIsRebuilds(h, st', q, d);
    }
  }

  // ---------- whole runs ----------

  /** From step k on, the accepted attempts spare root q. */
  ghost predicate SparedFrom(
      h: Hashing, seen: set<Directory>, limit: int, states: seq<State>, attempts: seq<Attempt>, q: string, k: nat)
    requires |states| == |attempts| + 1
  {
    forall i :: k <= i < |attempts| && Acceptable(h, limit, attempts[i].env, states[i].files, attempts[i].request) ==>
      Spares(h, seen, states[i], attempts[i].request, q)
  }

  lemma StepOf(h: Hashing, limit: int, states: seq<State>, attempts: seq<Attempt>, i: nat)
    requires IsRun(h, limit, states, attempts) && i < |attempts|
    ensures Attempted(h, limit, states[i], attempts[i], states[i + 1])
    ensures states[i + 1] != states[i] ==> Acceptable(h, limit, attempts[i].env, states[i].files, attempts[i].request)
  {
    hide Acceptable, Committed, Underway;
  }

  /** Over every run, failures included: once an unambiguous upload of a root has
      succeeded with a content hash that was new or agreed, the root rebuilds to the
      directory of its manifest in every later state, if the accepted attempts in
      between spare it. Nothing is asked of the store, nor of any earlier attempt. */
  lemma {:induction false} StoredScenesRebuild(
      h: Hashing, seen: set<Directory>, limit: int, states: seq<State>, attempts: seq<Attempt>, k: nat, j: nat)
    requires k < j <= |attempts| && IsRun(h, limit, states, attempts)
    requires Acceptable(h, limit, attempts[k].env, states[k].files, attempts[k].request)
    requires Committed(states[k], attempts[k].request, states[k + 1])
    requires Agrees(h, states[k], attempts[k].request) && Unambiguous(h, attempts[k].request.manifest)
    requires CollisionFree(h, seen) && ManifestLeaves(h, attempts[k].request.manifest) in seen
    requires SparedFrom(h, seen, limit, states, attempts, attempts[k].request.metadata.rootCid, k + 1)
    ensures SoundAt(h, states[j], attempts[k].request.metadata.rootCid)
    ensures RebuildsTo(h, states[j], attempts[k].request.metadata.rootCid, ManifestLeaves(h, attempts[k].request.manifest))
    decreases j
  {
    hide RebuildsTo, Verifies, SoundAt, Attempted, Acceptable, Committed, CollisionFree, Spares, Unambiguous, Agrees,
         ManifestLeaves, Recorded;
    var r := attempts[k].request;
    var q, d := r.metadata.rootCid, ManifestLeaves(h, r.manifest);
    if j == k + 1 {
      UploadRebuilds(h, limit, states[k], attempts[k], states[j]);
    } else {
      ManifestIsRoot(h, limit, attempts[k].env, states[k].files, r);
      StoredScenesRebuild(h, seen, limit, states, attempts, k, j - 1);
      StepOf(h, limit, states, attempts, j - 1);
      RebuildsForEver(h, seen, limit, states[j - 1], attempts[j - 1], states[j], q, d);
    }
  }

  /** So it verifies: what is fetched and hashed has the root as its CID. */
  lemma StoredScenesVerify(
      h: Hashing, seen: set<Directory>, limit: int, states: seq<State>, attempts: seq<Attempt>, k: nat, j: nat)
    requires k < j <= |attempts| && IsRun(h, limit, states, attempts)
    requires Acceptable(h, limit, attempts[k].env, states[k].files, attempts[k].request)
    requires Committed(states[k], attempts[k].request, states[k + 1])
    requires Agrees(h, states[k], attempts[k].request) && Unambiguous(h, attempts[k].request.manifest)
    requires CollisionFree(h, seen) && ManifestLeaves(h, attempts[k].request.manifest) in seen
    requires SparedFrom(h, seen, limit, states, attempts, attempts[k].request.metadata.rootCid, k + 1)
    ensures Verifies(h, states[j], attempts[k].request.metadata.rootCid)
  {
    hide Attempted, Acceptable, Committed, Rebuilt, Unambiguous, Agrees, SparedFrom;
    StoredScenesRebuild(h, seen, limit, states, attempts, k, j);
    ManifestIsRoot(h, limit, attempts[k].env, states[k].files, attempts[k].request);
  }

  /** In particular if later uploads save only files their manifests name, and later
      uploads of the root fit: such a run spares the root. */
  lemma TidyRunSpares(
      h: Hashing, seen: set<Directory>, limit: int, states: seq<State>, attempts: seq<Attempt>, q: string, k: nat)
    requires |states| == |attempts| + 1
    requires forall i :: k <= i < |attempts| && Acceptable(h, limit, attempts[i].env, states[i].files, attempts[i].request) ==>
               KeysTidy(attempts[i].request) && Fits(h, seen, attempts[i].request, q)
    ensures SparedFrom(h, seen, limit, states, attempts, q, k)
  {
    hide Acceptable, KeysTidy, Fits, Harmless;
    forall i | k <= i < |attempts| && Acceptable(h, limit, attempts[i].env, states[i].files, attempts[i].request)
      ensures Spares(h, seen, states[i], attempts[i].request, q)
    {
      TidyIsHarmless(h, limit, attempts[i].env, states[i], attempts[i].request, q);
    }
  }

  /** From an index where it does, what is recorded under a root belongs to it in
      every later state, if the accepted uploads of the root fit. With collision
      freedom the content hash then agrees with every such upload (RootedAgrees). */
  lemma {:induction false} RootedAlways(
      h: Hashing, seen: set<Directory>, limit: int, states: seq<State>, attempts: seq<Attempt>, q: string, j: nat)
    requires IsRun(h, limit, states, attempts) && j <= |attempts| && Rooted(h, seen, states[0].ix, q)
    requires forall i :: 0 <= i < |attempts| && Acceptable(h, limit, attempts[i].env, states[i].files, attempts[i].request) ==>
               Fits(h, seen, attempts[i].request, q)
    ensures Rooted(h, seen, states[j].ix, q)
  {
    hide Attempted, Acceptable, Fits, Rooted;
    if j == 0 {
    } else {
      RootedAlways(h, seen, limit, states, attempts, q, j - 1);
      StepOf(h, limit, states, attempts, j - 1);
      if states[j] != states[j - 1] {
        RootedKept(h, seen, limit, states[j - 1], attempts[j - 1], states[j], q);
      }
    }
  }

  /** A sound store stays sound over every run whose accepted uploads save only
      files their manifests name. */
  lemma {:induction false} StoreAlwaysSound(
      h: Hashing, limit: int, states: seq<State>, attempts: seq<Attempt>, j: nat)
    requires IsRun(h, limit, states, attempts) && j <= |attempts| && StoreSound(h, states[0].files)
    requires forall i :: 0 <= i < |attempts| && Acceptable(h, limit, attempts[i].env, states[i].files, attempts[i].request) ==>
               KeysTidy(attempts[i].request)
    ensures StoreSound(h, states[j].files)
  {
    hide Attempted, Acceptable, KeysTidy, StoreSound;
    if j == 0 {
    } else {
      StoreAlwaysSound(h, limit, states, attempts, j - 1);
      StepOf(h, limit, states, attempts, j - 1);
      if states[j] != states[j - 1] {
        StoreStaysSound(h, limit, states[j - 1], attempts[j - 1], states[j]);
      }
    }
  }
}
