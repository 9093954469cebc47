/** internal/handlers/upload_service.go: validate an upload, then store it. */
module UploadService {
  import opened Results
  import opened ParcelId
  import opened SceneIndex
  import opened Metadata
  import opened Redis
  import opened Storage
  import opened Authorization
  import opened UploadRequest
  import opened UploadEffect

  /** The outside checks, of a message, a signature and a key: signature recovery
      and, for long signatures, the contract call; and the land service. */
  datatype Outside = Outside(
    recovers: (string, string, string) -> bool,
    contractAccepts: (string, string, string) -> Option<bool>,
    land: Land)

  function SignatureError(env: Outside, m: Metadata): Option<UploadError> {
    if |m.signature| > 150 then
      if env.contractAccepts(m.value + "." + Print(m.timestamp), m.signature, m.pubKey) == Some(true) then None
      else Some(Unclassified)
    else if env.recovers(m.rootCid + "." + Print(m.timestamp), m.signature, m.pubKey) then None
    else Some(InvalidArgument)
  }

  /** The requests the service accepts. */
  ghost predicate Acceptable(h: Hashing, limit: int, env: Outside, store: Files, r: Request) {
    var tree := TreeOf(h, r.files, store, r.manifest);
    && SignatureError(env, r.metadata).None?
    && r.parcels != [] && AllGranted(env.land, r.metadata.pubKey, r.parcels)
    && Fetchable(r.files, store, r.manifest)
    && Estimate(r.files, store, r.manifest) <= |r.parcels| * limit
    && h.wellFormed(r.metadata.rootCid)
    && EntriesValid(h, r.files, store, r.manifest)
    && tree != map[]
    && h.dir(Leaves(h, tree)) == r.metadata.rootCid
  }

  /** The error a request is refused with when nothing outside fails: that of the
      first phase that does not accept it. A request that is valid but writes no
      file is an unexpected error. */
  ghost function Refusal(h: Hashing, limit: int, env: Outside, store: Files, r: Request): UploadError
    requires !Acceptable(h, limit, env, store, r)
  {
    if SignatureError(env, r.metadata).Some? then SignatureError(env, r.metadata).value
    else if FirstDenied(env.land, r.metadata.pubKey, r.parcels) then Unauthorized
    else if
      && r.parcels != [] && AllGranted(env.land, r.metadata.pubKey, r.parcels)
      && Fetchable(r.files, store, r.manifest)
      && Estimate(r.files, store, r.manifest) <= |r.parcels| * limit
      && h.wellFormed(r.metadata.rootCid)
      && EntriesValid(h, r.files, store, r.manifest)
      && TreeOf(h, r.files, store, r.manifest) == map[] then Unexpected
    else InvalidArgument
  }

  class UploadService {
    const storage: Storage
    const redis: Redis
    const h: Hashing
    const parcelSizeLimit: int
    /** Failures of the local disk and of the hashing node. */
    ghost var failures: nat

    constructor (storage: Storage, redis: Redis, h: Hashing, parcelSizeLimit: int)
      ensures this.storage == storage && this.redis == redis && this.h == h
      ensures this.parcelSizeLimit == parcelSizeLimit
    {
      this.storage := storage;
      this.redis := redis;
      this.h := h;
      this.parcelSizeLimit := parcelSizeLimit;
      failures := 0;
    }

    ghost function Now(): State
      reads storage, redis
    {
      State(storage.files, redis.ix)
    }

    ghost function Failures(): nat
      reads this, storage, redis
    {
      failures + storage.failures + redis.failures
    }

    // ---------- validation ----------

    method ValidateKeyAccess(env: Outside, key: string, parcels: seq<string>) returns (err: Option<UploadError>)
      ensures err.None? <==> parcels != [] && AllGranted(env.land, key, parcels)
      ensures err.Some? ==> err.value == if FirstDenied(env.land, key, parcels) then Unauthorized else InvalidArgument
      ensures err.None? ==> !FirstDenied(env.land, key, parcels)
    {
      var access := UserCanModifyParcels(env.land, key, parcels);
      match access
      case Failed => err := Some(InvalidArgument);
      case Denied => err := Some(Unauthorized);
      case Granted => err := None;
    }

    method EstimateRequestSize(r: Request) returns (size: Result<nat, UploadError>)
      modifies storage
      ensures storage.files == old(storage.files) && storage.failures >= old(storage.failures)
      ensures size.Ok? ==> Fetchable(r.files, storage.files, r.manifest)
                           && size.value == Estimate(r.files, storage.files, r.manifest)
      ensures size.Err? ==> size.error in {InvalidArgument, Unexpected}
      ensures size.Err? && storage.failures == old(storage.failures) ==>
                size.error == InvalidArgument && !Fetchable(r.files, storage.files, r.manifest)
    {
      hide Estimate, Fetchable, IsDir;
      var total: nat := 0;
      var i := 0;
      NoEntries(r.files, storage.files, r.manifest);
      while i < |r.manifest|
        invariant 0 <= i <= |r.manifest|
        invariant storage.files == old(storage.files) && storage.failures == old(storage.failures)
        invariant Fetchable(r.files, storage.files, r.manifest[..i])
        invariant total == Estimate(r.files, storage.files, r.manifest[..i])
      {
        EstimateNext(r.files, storage.files, r.manifest, i);
        var m := r.manifest[i];
        i := i + 1;
        if IsDir(m.name) {
          continue;
        }
        if m.cid in r.files {
          total := total + |r.files[m.cid].data|;
        } else {
          var s := storage.FileSize(m.cid);
          if s.Err? {
            return Err(if s.error == NotFound then InvalidArgument else Unexpected);
          }
          total := total + s.value;
        }
      }
      assert r.manifest[..i] == r.manifest;
      return Ok(total);
    }

    method ValidateRequestSize(r: Request) returns (err: Option<UploadError>)
      modifies storage
      ensures storage.files == old(storage.files) && storage.failures >= old(storage.failures)
      ensures err.None? ==> Fetchable(r.files, storage.files, r.manifest)
                            && Estimate(r.files, storage.files, r.manifest) <= |r.parcels| * parcelSizeLimit
      ensures err.Some? && storage.failures == old(storage.failures) ==>
                err == Some(InvalidArgument)
                && !(Fetchable(r.files, storage.files, r.manifest)
                     && Estimate(r.files, storage.files, r.manifest) <= |r.parcels| * parcelSizeLimit)
      ensures err != Some(Unauthorized)
    {
      var maxSize := |r.parcels| * parcelSizeLimit;
      var size := EstimateRequestSize(r);
      if size.Err? {
        return Some(size.error);
      }
      return if size.value > maxSize then Some(InvalidArgument) else None;
    }

    /** Fetch the bytes of one entry: from the request, else from the store. */
    method FetchEntry(r: Request, m: FileMetadata) returns (data: Result<Bytes, UploadError>)
      modifies storage, this
      ensures storage.files == old(storage.files)
      ensures storage.failures >= old(storage.failures) && failures >= old(failures)
      ensures data.Ok? ==> Source(r.files, storage.files, m.cid) == Some(data.value)
                           && storage.failures == old(storage.failures) && failures == old(failures)
      ensures data.Err? && storage.failures == old(storage.failures) && failures == old(failures) ==>
                data.error == InvalidArgument && Source(r.files, storage.files, m.cid).None?
      ensures data != Err(Unauthorized)
    {
      if m.cid in r.files {
        if * {
          failures := failures + 1;
          return Err(Unclassified);
        }
        return Ok(r.files[m.cid].data);
      }
      var stored := storage.DownloadFile(m.cid);
      if stored.Err? {
        return Err(if stored.error == NotFound then InvalidArgument else Unexpected);
      }
      return Ok(stored.value);
    }

    /** Hash a written file and compare with the CID its entry claims. */
    method ValidateCID(data: Bytes, expected: string) returns (err: Option<UploadError>)
      modifies this
      ensures failures >= old(failures)
      ensures err.None? ==> h.file(data) == expected && failures == old(failures)
      ensures err.Some? && failures == old(failures) ==> err == Some(InvalidArgument) && h.file(data) != expected
      ensures err != Some(Unauthorized)
    {
      if * {
        failures := failures + 1;
        if * { return Some(InvalidArgument); } else { return Some(Unclassified); }
      }
      return if h.file(data) != expected then Some(InvalidArgument) else None;
    }

    method ConsolidateContent(r: Request) returns (content: Result<Tree, UploadError>)
      modifies storage, this
      ensures storage.files == old(storage.files)
      ensures storage.failures >= old(storage.failures) && failures >= old(failures)
      ensures content.Ok? ==>
                && EntriesValid(h, r.files, storage.files, r.manifest)
                && content.value == TreeOf(h, r.files, storage.files, r.manifest)
                && storage.failures == old(storage.failures) && failures == old(failures)
      ensures content.Err? && storage.failures == old(storage.failures) && failures == old(failures) ==>
                content.error == InvalidArgument && !EntriesValid(h, r.files, storage.files, r.manifest)
      ensures content != Err(Unauthorized)
      ensures content.Ok? ==>
                forall m :: m in r.manifest && (m.name == "" || m.name[|m.name| - 1] != '/') ==>
                  && h.wellFormed(m.cid) && h.place(m.name) in content.value
                  && (m.cid in r.files ==> h.file(r.files[m.cid].data) == m.cid)
                  && (m.cid !in r.files ==> m.cid in storage.files && h.file(storage.files[m.cid]) == m.cid)
      ensures content.Ok? ==>
                forall p :: p in content.value ==>
                  exists m :: && m in r.manifest && (m.name == "" || m.name[|m.name| - 1] != '/') && h.place(m.name) == p
                              && h.file(content.value[p]) == m.cid
    {
      var tree: Tree := map[];
      var i := 0;
      assert TreeOf(h, r.files, storage.files, r.manifest[..0]) == map[];
      assert EntriesValid(h, r.files, storage.files, r.manifest[..0]);
      hide TreeOf, EntriesValid, IsDir, Source;
      while i < |r.manifest|
        invariant 0 <= i <= |r.manifest|
        invariant storage.files == old(storage.files)
        invariant storage.failures == old(storage.failures) && failures == old(failures)
        invariant EntriesValid(h, r.files, storage.files, r.manifest[..i])
        invariant tree == TreeOf(h, r.files, storage.files, r.manifest[..i])
      {
        var m := r.manifest[i];
        TreeNext(h, r.files, storage.files, r.manifest, i);
        i := i + 1;
        if IsDir(m.name) {
          continue;
        }
        if !h.wellFormed(m.cid) {
          return Err(InvalidArgument);
        }
        var data := FetchEntry(r, m);
        if data.Err? {
          return Err(data.error);
        }
        tree := tree[h.place(m.name) := data.value];
        var err := ValidateCID(data.value, m.cid);
        if err.Some? {
          return Err(err.value);
        }
      }
      assert r.manifest[..i] == r.manifest;
      TreeIsChecked(h, r.files, storage.files, r.manifest);
      return Ok(tree);
    }

    method ValidateContentCID(r: Request) returns (err: Option<UploadError>)
      modifies storage, this
      ensures storage.files == old(storage.files)
      ensures storage.failures >= old(storage.failures) && failures >= old(failures)
      ensures err.None? || (storage.failures == old(storage.failures) && failures == old(failures)) ==>
                (err.None? <==>
                  var tree := TreeOf(h, r.files, storage.files, r.manifest);
                  && h.wellFormed(r.metadata.rootCid)
                  && EntriesValid(h, r.files, storage.files, r.manifest)
                  && tree != map[]
                  && h.dir(Leaves(h, tree)) == r.metadata.rootCid)
      ensures err.Some? && storage.failures == old(storage.failures) && failures == old(failures) ==>
                err.value == if && h.wellFormed(r.metadata.rootCid)
                                && EntriesValid(h, r.files, storage.files, r.manifest)
                                && TreeOf(h, r.files, storage.files, r.manifest) == map[]
                             then Unexpected else InvalidArgument
      ensures err != Some(Unauthorized)
    {
      if !h.wellFormed(r.metadata.rootCid) {
        return Some(InvalidArgument);
      }
      var content := ConsolidateContent(r);
      if content.Err? {
        return Some(content.error);
      }
      if * {
        failures := failures + 1;
        return Some(Unexpected);
      }
      if content.value == map[] { // no file was written, so there is no directory to hash
        return Some(Unexpected);
      }
      return if h.dir(Leaves(h, content.value)) != r.metadata.rootCid then Some(InvalidArgument) else None;
    }

    /** The four validation phases, in order. */
    method Validate(env: Outside, r: Request) returns (err: Option<UploadError>)
      modifies storage, this
      ensures storage.files == old(storage.files)
      ensures storage.failures >= old(storage.failures) && failures >= old(failures)
      ensures err.None? ==> Acceptable(h, parcelSizeLimit, env, storage.files, r)
      ensures storage.failures == old(storage.failures) && failures == old(failures) ==>
                && (err.None? <==> Acceptable(h, parcelSizeLimit, env, storage.files, r))
                && (err.Some? ==> err.value == Refusal(h, parcelSizeLimit, env, storage.files, r))
      ensures SignatureError(env, r.metadata).Some? ==> err == SignatureError(env, r.metadata)
      ensures err == Some(Unauthorized) <==>
                SignatureError(env, r.metadata).None? && FirstDenied(env.land, r.metadata.pubKey, r.parcels)
    {
      err := SignatureError(env, r.metadata);
      if err.Some? {
        return;
      }
      err := ValidateKeyAccess(env, r.metadata.pubKey, r.parcels);
      if err.Some? {
        return;
      }
      err := ValidateRequestSize(r);
      if err.Some? {
        return;
      }
      err := ValidateContentCID(r);
    }

    // ---------- storing ----------

    method GroupFilePathsByCid(manifest: seq<FileMetadata>) returns (paths: map<string, seq<string>>)
      ensures paths.Keys == CidsIn(Entries(manifest))
      ensures forall cid :: cid in paths ==> paths[cid] == NamesFor(manifest, cid)
    {
      paths := map[];
      var i := 0;
      while i < |manifest|
        invariant 0 <= i <= |manifest|
        invariant paths.Keys == CidsIn(Entries(manifest[..i]))
        invariant forall cid :: cid in paths ==> paths[cid] == NamesFor(manifest[..i], cid)
      {
        var m := manifest[i];
        ghost var before := manifest[..i];
        ghost var after := manifest[..i + 1];
        assert after[..i] == before && after[i] == m;
        assert Entries(after) == Entries(before) + {m} by { assert after == before + [m]; }
        assert CidsIn(Entries(after)) == CidsIn(Entries(before)) + {m.cid};
        if m.cid !in paths {
          NotNamed(before, m.cid);
        }
        var names := if m.cid in paths then paths[m.cid] else [];
        paths := paths[m.cid := names + [m.name]];
        i := i + 1;
      }
      assert manifest[..i] == manifest;
    }

    method SaveFiles(files: map<string, FileHeader>) returns (err: Option<UploadError>)
      modifies storage, this
      ensures storage.failures >= old(storage.failures) && failures >= old(failures)
      ensures err.None? ==> storage.files == Saved(old(storage.files), files, files.Keys)
      ensures err.Some? ==>
                && err == Some(Unexpected)
                && (storage.failures > old(storage.failures) || failures > old(failures))
                && exists done :: done <= files.Keys && storage.files == Saved(old(storage.files), files, done)
    {
      var rest := files.Keys;
      assert storage.files == Saved(old(storage.files), files, files.Keys - rest);
      while rest != {}
        invariant rest <= files.Keys
        invariant storage.files == Saved(old(storage.files), files, files.Keys - rest)
        invariant storage.failures == old(storage.failures) && failures == old(failures)
        decreases rest
      {
        var cid :| cid in rest;
        ghost var done := files.Keys - rest;
        ghost var more := files.Keys - (rest - {cid});
        assert more == done + {cid};
        assert Saved(old(storage.files), files, done)[cid := files[cid].data] == Saved(old(storage.files), files, more);
        if * {
          failures := failures + 1;
          return Some(Unexpected);
        }
        var failed := storage.SaveFile(cid, files[cid].data);
        if failed {
          return Some(Unexpected);
        }
        rest := rest - {cid};
      }
      assert files.Keys - rest == files.Keys;
      return None;
    }

    /** Write the names of one CID under the root, then mark the CID as stored. */
    method PublishCid(ghost before: Index, ghost hash: Fields, ghost done: set<string>,
                      paths: map<string, seq<string>>, cid: string, root: string)
      returns (err: bool, ghost hash': Fields)
      requires cid in paths && done <= paths.Keys && cid !in done
      requires PublishedAs(before, root, EntriesOf(paths, done), hash, done, redis.ix)
      modifies redis
      ensures redis.failures >= old(redis.failures)
      ensures err <==> redis.failures > old(redis.failures)
      ensures !err ==> PublishedAs(before, root, EntriesOf(paths, done + {cid}), hash', done + {cid}, redis.ix)
      ensures err ==> Publishing(before, root, EntriesOf(paths, paths.Keys), paths.Keys, redis.ix)
    {
      hide PublishedAs, Step, InTurn;
      hash' := hash;
      var names := paths[cid];
      ghost var written := EntriesOf(paths, done);
      var i := 0;
      while i < |names|
        invariant 0 <= i <= |names|
        invariant redis.failures == old(redis.failures)
        invariant written == EntriesOf(paths, done) + set n | n in names[..i] :: FileMetadata(cid, n)
        invariant PublishedAs(before, root, written, hash', done, redis.ix)
      {
        ghost var e := FileMetadata(cid, names[i]);
        PublishName(before, root, written, hash', done, redis.ix, e);
        PartInTurn(paths, done, cid, written);
        PartInTurn(paths, done, cid, written + {e});
        err := redis.StoreContent(root, names[i], cid);
        if err {
          return;
        }
        written, hash' := written + {e}, hash'[e.name := e.cid];
        i := i + 1;
      }
      assert written == EntriesOf(paths, done + {cid});
      PartInTurn(paths, done, cid, written);
      WholeInTurn(paths, done + {cid});
      assert done + {cid} <= paths.Keys;
      MarkStored(before, root, written, hash', done, redis.ix, cid);
      err := redis.AddCID(cid);
    }

    /** The CIDs come in no particular order. */
    method PublishFiles(paths: map<string, seq<string>>, root: string) returns (err: bool)
      modifies redis
      ensures redis.failures >= old(redis.failures)
      ensures err <==> redis.failures > old(redis.failures)
      ensures !err ==> Published(old(redis.ix), root, EntriesOf(paths, paths.Keys), paths.Keys, redis.ix)
      ensures err ==> Publishing(old(redis.ix), root, EntriesOf(paths, paths.Keys), paths.Keys, redis.ix)
    {
      hide PublishedAs;
      ghost var before := redis.ix;
      ghost var hash := HashOf(before.content, root);
      var rest := paths.Keys;
      PublishNothing(before, root);
      assert EntriesOf(paths, {}) == {} && paths.Keys - rest == {};
      while rest != {}
        invariant rest <= paths.Keys && redis.failures == old(redis.failures)
        invariant PublishedAs(before, root, EntriesOf(paths, paths.Keys - rest), hash, paths.Keys - rest, redis.ix)
        decreases rest
      {
        var cid :| cid in rest;
        err, hash := PublishCid(before, hash, paths.Keys - rest, paths, cid, root);
        if err {
          return true;
        }
        assert paths.Keys - (rest - {cid}) == (paths.Keys - rest) + {cid};
        rest := rest - {cid};
      }
      assert paths.Keys - rest == paths.Keys;
      return false;
    }

    method StoreParcelsInformation(root: string, parcels: seq<string>) returns (err: bool)
      modifies redis
      ensures redis.failures >= old(redis.failures)
      ensures err <==> parcels == [] || redis.failures > old(redis.failures)
      ensures !err ==> redis.ix == Placed(old(redis.ix), root, parcels)
      ensures err ==> Placing(old(redis.ix), root, parcels, redis.ix)
    {
      hide SetScene, Interrupted;
      err := redis.SetSceneParcels(root, parcels);
      if err {
        return true;
      }
      ghost var placed := redis.ix;
      ghost var flagged: set<string> := {};
      assert placed.processed + {} == placed.processed;
      var i := 0;
      while i < |parcels|
        invariant 0 <= i <= |parcels|
        invariant redis.failures == old(redis.failures)
        invariant flagged == set p | p in parcels[..i]
        invariant redis.ix == Flagged(placed, flagged)
      {
        assert parcels[..i + 1] == parcels[..i] + [parcels[i]];
        assert placed.processed + flagged + {parcels[i]} == placed.processed + (flagged + {parcels[i]});
        ghost var next := flagged + {parcels[i]};
        assert (forall p :: p in flagged ==> p in parcels) && (forall p :: p in next ==> p in parcels);
        err := redis.SetProcessedParcel(parcels[i]);
        if err {
          assert redis.ix == Flagged(placed, flagged) || redis.ix == Flagged(placed, next);
          return true;
        }
        flagged := next;
        i := i + 1;
      }
      assert parcels[..i] == parcels;
      return false;
    }

    method FindSceneCid(manifest: seq<FileMetadata>) returns (cid: string)
      ensures cid == SceneCidOf(manifest)
    {
      hide Contains;
      cid := "";
      var i := 0;
      assert manifest[0..] == manifest;
      while i < |manifest|
        invariant 0 <= i <= |manifest|
        invariant SceneCidOf(manifest) == SceneCidOf(manifest[i..])
      {
        assert manifest[i..][0] == manifest[i] && manifest[i..][1..] == manifest[i + 1..];
        if Contains(manifest[i].name, "scene.json") {
          return manifest[i].cid;
        }
        i := i + 1;
      }
    }

    /** Metadata and scene CID, the last writes of an upload. */
    method DescribeScene(r: Request) returns (err: bool)
      modifies redis
      ensures redis.failures >= old(redis.failures)
      ensures err <==> redis.failures > old(redis.failures)
      ensures !err ==> redis.ix == Finish(old(redis.ix), r)
      ensures err ==> Finishing(old(redis.ix), r, redis.ix)
    {
      hide Step, FieldsOf, SceneCidOf;
      err := redis.StoreMetadata(r.metadata.rootCid, r.metadata);
      if err {
        return;
      }
      var sceneCid := FindSceneCid(r.manifest);
      err := redis.SaveRootCidSceneCid(r.metadata.rootCid, sceneCid);
    }

    /** Everything after validation. */
    method Store(r: Request) returns (err: Option<UploadError>)
      requires r.parcels != []
      modifies storage, redis, this
      ensures storage.failures >= old(storage.failures) && redis.failures >= old(redis.failures)
      ensures failures >= old(failures)
      ensures err.None? ==> Committed(old(Now()), r, Now())
      ensures err.Some? ==> err == Some(Unexpected) && Underway(old(Now()), r, Now()) && Failures() > old(Failures())
    {
      hide Published, Publishing, Placed, Placing, Finish, Finishing;
      ghost var ix := redis.ix;
      ghost var entries := Entries(r.manifest);
      var paths := GroupFilePathsByCid(r.manifest);
      EntriesOfGrouping(paths, r.manifest);
      err := SaveFiles(r.files);
      if err.Some? {
        return;
      }
      var failed := PublishFiles(paths, r.metadata.rootCid);
      if failed {
        return Some(Unexpected);
      }
      ghost var mid := redis.ix;
      failed := StoreParcelsInformation(r.metadata.rootCid, r.parcels);
      if failed {
        return Some(Unexpected);
      }
      failed := DescribeScene(r);
      return if failed then Some(Unexpected) else None;
    }

    /** An upload: validated completely, then stored. A request is refused with no
        write at all; a write happens only for an acceptable request. */
    method ProcessUpload(env: Outside, r: Request) returns (err: Option<UploadError>)
      modifies storage, redis, this
      ensures err.None? ==> Acceptable(h, parcelSizeLimit, env, old(storage.files), r) && Committed(old(Now()), r, Now())
      ensures err.Some? ==>
                || Now() == old(Now())
                || (err == Some(Unexpected)
                    && Acceptable(h, parcelSizeLimit, env, old(storage.files), r)
                    && Underway(old(Now()), r, Now()))
      ensures Failures() == old(Failures()) ==>
                && (err.None? <==> Acceptable(h, parcelSizeLimit, env, old(storage.files), r))
                && (err.Some? ==> err.value == Refusal(h, parcelSizeLimit, env, old(storage.files), r))
      ensures var m := r.metadata;
              && (|m.signature| <= 150 && !env.recovers(m.rootCid + "." + Print(m.timestamp), m.signature, m.pubKey) ==>
                    err == Some(InvalidArgument) && Now() == old(Now()))
              && (|m.signature| > 150
                  && env.contractAccepts(m.value + "." + Print(m.timestamp), m.signature, m.pubKey) != Some(true) ==>
                    err == Some(Unclassified) && Now() == old(Now()))
      ensures err == Some(Unauthorized) ==> Now() == old(Now())
      ensures var m := r.metadata;
              err == Some(Unauthorized) <==>
                && FirstDenied(env.land, m.pubKey, r.parcels)
                && if |m.signature| <= 150 then env.recovers(m.rootCid + "." + Print(m.timestamp), m.signature, m.pubKey)
                   else env.contractAccepts(m.value + "." + Print(m.timestamp), m.signature, m.pubKey) == Some(true)
      ensures err.None? ==> r.parcels != [] && forall p :: p in r.parcels ==> GrantedAt(env.land, r.metadata.pubKey, p)
      ensures err.None? ==>
                forall m :: m in r.manifest && (m.name == "" || m.name[|m.name| - 1] != '/') ==>
                  && h.wellFormed(m.cid)
                  && (m.cid in r.files ==> h.file(r.files[m.cid].data) == m.cid)
                  && (m.cid !in r.files ==> m.cid in old(storage.files) && h.file(old(storage.files)[m.cid]) == m.cid)
      ensures err == Some(Unexpected) && Failures() == old(Failures()) ==>
                forall m :: m in r.manifest ==> m.name != "" && m.name[|m.name| - 1] == '/'
      ensures Failures() == old(Failures()) && err.Some? && SignatureError(env, r.metadata).None?
              && AllGranted(env.land, r.metadata.pubKey, r.parcels) && r.parcels != []
              && parcelSizeLimit >= 0 && h.wellFormed(r.metadata.rootCid)
              && (forall m :: m in r.manifest ==> m.name != "" && m.name[|m.name| - 1] == '/') ==>
                err == Some(Unexpected)
    {
      if && SignatureError(env, r.metadata).None?
         && AllGranted(env.land, r.metadata.pubKey, r.parcels) && r.parcels != []
         && parcelSizeLimit >= 0 && h.wellFormed(r.metadata.rootCid)
         && (forall m :: m in r.manifest ==> m.name != "" && m.name[|m.name| - 1] == '/') {
        NoFileIsUnexpected(h, parcelSizeLimit, env, storage.files, r);
      }
      UnexpectedHasNoFile(h, parcelSizeLimit, env, storage.files, r);
      AcceptableInPlainTerms(h, parcelSizeLimit, env, storage.files, r);
      hide Acceptable, Refusal, Committed, Underway;
      err := Validate(env, r);
      if err.Some? {
        return;
      }
      AcceptableHasParcels(h, parcelSizeLimit, env, storage.files, r);
      err := Store(r);
    }
  }

  /** An acceptable request: its parcels are granted, and the bytes of its files,
      from the request or else from the store, have their CIDs. */
  lemma AcceptableInPlainTerms(h: Hashing, limit: int, env: Outside, store: Files, r: Request)
    ensures Acceptable(h, limit, env, store, r) ==>
              forall p :: p in r.parcels ==> GrantedAt(env.land, r.metadata.pubKey, p)
    ensures Acceptable(h, limit, env, store, r) ==>
              forall m :: m in r.manifest && (m.name == "" || m.name[|m.name| - 1] != '/') ==>
                && h.wellFormed(m.cid)
                && (m.cid in r.files ==> h.file(r.files[m.cid].data) == m.cid)
                && (m.cid !in r.files ==> m.cid in store && h.file(store[m.cid]) == m.cid)
  {
    hide Verdict, GrantedAt, SignatureError, EntryValid;
    if Acceptable(h, limit, env, store, r) {
      TreeIsChecked(h, r.files, store, r.manifest);
      hide TreeOf, Estimate, Leaves;
      forall p | p in r.parcels
        ensures GrantedAt(env.land, r.metadata.pubKey, p)
      {
        GrantedIsAt(env.land, r.metadata.pubKey, p);
      }
    }
  }

  /** The only valid request that is refused as unexpected has no file at all. */
  lemma UnexpectedHasNoFile(h: Hashing, limit: int, env: Outside, store: Files, r: Request)
    ensures !Acceptable(h, limit, env, store, r) && Refusal(h, limit, env, store, r) == Unexpected ==>
              forall m :: m in r.manifest ==> m.name != "" && m.name[|m.name| - 1] == '/'
  {
    hide EntryValid, Estimate, Fetchable, FirstDenied, AllGranted;
    if !Acceptable(h, limit, env, store, r) && Refusal(h, limit, env, store, r) == Unexpected {
      TreeIsChecked(h, r.files, store, r.manifest);
      hide TreeOf;
    }
  }

  /** And it is refused so, if nothing else is wrong with it. */
  lemma NoFileIsUnexpected(h: Hashing, limit: int, env: Outside, store: Files, r: Request)
    requires SignatureError(env, r.metadata).None?
    requires AllGranted(env.land, r.metadata.pubKey, r.parcels) && r.parcels != []
    requires limit >= 0 && h.wellFormed(r.metadata.rootCid)
    requires forall m :: m in r.manifest ==> m.name != "" && m.name[|m.name| - 1] == '/'
    ensures !Acceptable(h, limit, env, store, r) && Refusal(h, limit, env, store, r) == Unexpected
  {
    hide Source, SignatureError, Verdict;
    NothingToFetch(h, r.files, store, r.manifest);
  }

  lemma {:induction false} NothingToFetch(h: Hashing, files: map<string, FileHeader>, store: Files, manifest: seq<FileMetadata>)
    requires forall m :: m in manifest ==> m.name != "" && m.name[|m.name| - 1] == '/'
    ensures TreeOf(h, files, store, manifest) == map[] && Estimate(files, store, manifest) == 0
  {
    if manifest == [] {
    } else {
      NothingToFetch(h, files, store, manifest[..|manifest| - 1]);
    }
  }

  lemma AcceptableHasParcels(h: Hashing, limit: int, env: Outside, store: Files, r: Request)
    requires Acceptable(h, limit, env, store, r)
    ensures r.parcels != []
  {
  }
}
