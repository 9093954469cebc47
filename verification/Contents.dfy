/** internal/handlers/contents_handler.go: which CIDs are stored? A cache of known
    CIDs in front of the store, filled as it is asked. */
module Contents {
  import opened Results
  import opened SceneIndex
  import opened Redis
  import opened Storage
  import opened UploadEffect
  import opened UploadRuns

  datatype Status = Known(resp: map<string, bool>) | TryAgain

  class ContentHandler {
    const storage: Storage
    const redis: Redis

    constructor (storage: Storage, redis: Redis)
      ensures this.storage == storage && this.redis == redis
    {
      this.storage := storage;
      this.redis := redis;
    }

    ghost function Now(): State
      reads storage, redis
    {
      State(storage.files, redis.ix)
    }

    ghost function Failures(): nat
      reads storage, redis
    {
      storage.failures + redis.failures
    }

    /** Ask the store; remember a CID it has. */
    method CheckContentInStorage(cid: string) returns (r: Result<bool, ()>)
      modifies storage, redis
      ensures storage.files == old(storage.files)
      ensures storage.failures >= old(storage.failures) && redis.failures >= old(redis.failures)
      ensures r.Err? <==> Failures() > old(Failures())
      ensures r.Ok? ==> r.value == (cid in storage.files)
      ensures redis.ix == old(redis.ix) || (cid in storage.files && redis.ix == Remember(old(redis.ix), {cid}))
      ensures r == Ok(true) ==> cid in redis.ix.uploaded
    {
      assert Step(redis.ix, AddUploaded(cid)) == Remember(redis.ix, {cid});
      var size := storage.FileSize(cid);
      if size.Err? {
        return if size.error == NotFound then Ok(false) else Err(());
      }
      var err := redis.AddCID(cid);
      return if err then Err(()) else Ok(true);
    }

    /** POST /content/status. Without failures every asked CID is answered, true
        exactly for those cached before or stored, and only stored CIDs are added
        to the cache; after an error the cache holds no more than that. */
    method CheckContentStatus(cids: seq<string>) returns (r: Status)
      modifies storage, redis
      ensures storage.files == old(storage.files)
      ensures r == TryAgain <==> Failures() > old(Failures())
      ensures Asked(old(Now()), cids, Now())
      ensures r.Known? ==>
                && r.resp.Keys == (set c | c in cids)
                && (forall c :: c in r.resp ==> (r.resp[c] <==> c in old(redis.ix.uploaded) || c in storage.files))
                && (forall c :: c in cids ==> (c in redis.ix.uploaded <==> r.resp[c]))
    {
      var resp: map<string, bool> := map[];
      var i := 0;
      ghost var added: set<string> := {};
      ghost var before := redis.ix;
      RememberNothing(before);
      while i < |cids|
        invariant 0 <= i <= |cids|
        invariant storage.files == old(storage.files)
        invariant storage.failures == old(storage.failures) && redis.failures == old(redis.failures)
        invariant added <= storage.files.Keys && (forall c :: c in added ==> c in cids)
        invariant redis.ix == Remember(before, added)
        invariant resp.Keys == set c | c in cids[..i]
        invariant forall c :: c in resp ==> (resp[c] <==> c in before.uploaded || c in storage.files)
        invariant forall c :: c in resp ==> (c in redis.ix.uploaded <==> resp[c])
      {
        var cid := cids[i];
        assert cids[..i + 1] == cids[..i] + [cid];
        RememberMore(before, added, cid);
        assert forall c :: c in added + {cid} ==> c in cids;
        i := i + 1;
        var member := redis.IsContentMember(cid);
        if member.Err? {
          return TryAgain;
        }
        var uploaded := member.value;
        if !uploaded {
          var stored := CheckContentInStorage(cid);
          added := if redis.ix == Remember(before, added) then added else added + {cid};
          if stored.Err? {
            return TryAgain;
          }
          uploaded := stored.value;
        }
        resp := resp[cid := uploaded];
      }
      assert cids[..i] == cids;
      return Known(resp);
    }
  }

  function Remember(ix: Index, cids: set<string>): Index {
    ix.(uploaded := ix.uploaded + cids)
  }

  /** The effect of a status request: it may add stored CIDs it was asked for. */
  ghost predicate Asked(st: State, cids: seq<string>, st': State) {
    && st'.files == st.files
    && exists added: set<string> ::
         added <= st.files.Keys && (forall c :: c in added ==> c in cids) && st'.ix == Remember(st.ix, added)
  }

  lemma RememberNothing(ix: Index)
    ensures Remember(ix, {}) == ix
  {
    assert ix.uploaded + {} == ix.uploaded;
  }

  lemma RememberMore(ix: Index, added: set<string>, cid: string)
    ensures Remember(Remember(ix, added), {cid}) == Remember(ix, added + {cid})
  {
    assert ix.uploaded + added + {cid} == ix.uploaded + (added + {cid});
  }

  /** With a sound cache the answer to a status request is about the store alone,
      except for CIDs that only directory entries named; and the cache stays sound. */
  lemma StatusIsAboutTheStore(st: State, cids: seq<string>, st': State, dirs: set<string>, resp: map<string, bool>)
    requires CacheSound(st, dirs) && Asked(st, cids, st')
    requires forall c :: c in resp ==> (resp[c] <==> c in st.ix.uploaded || c in st.files)
    ensures forall c :: c in resp && c !in dirs ==> (resp[c] <==> c in st.files)
    ensures CacheSound(st', dirs)
  {
  }
}
