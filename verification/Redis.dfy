/** data/redis.go: the Redis client. Any command may fail. */
module Redis {
  import opened Results
  import opened SceneIndex
  import opened Metadata

  datatype RedisError = Nil | Failure

  class Redis {
    var ix: Index
    /** How many commands have failed so far. */
    ghost var failures: nat

    constructor (ix: Index)
      ensures this.ix == ix && failures == 0
    {
      this.ix := ix;
      failures := 0;
    }

    /** One command: it succeeds, or fails without effect, or takes effect while
        its reply is lost. */
    method Issue(c: Command) returns (r: Result<Reply, RedisError>)
      modifies this
      ensures r.Ok? ==> ix == Step(old(ix), c) && r.value == Answer(old(ix), c) && failures == old(failures)
      ensures r.Err? ==> ix in {old(ix), Step(old(ix), c)} && r.error == Failure && failures > old(failures)
    {
      if * {
        r := Ok(Answer(ix, c));
        ix := Step(ix, c);
      } else {
        if * {
          ix := Step(ix, c);
        }
        r := Err(Failure);
        failures := failures + 1;
      }
    }

    method GetParcelCID(pid: string) returns (r: Result<string, RedisError>)
      modifies this
      ensures ix == old(ix)
      ensures r.Ok? ==> r.value == CidOf(ix, pid) && failures == old(failures)
      ensures r.Err? ==> failures > old(failures)
    {
      var reply := Issue(GetParcel(pid));
      if reply.Err? {
        return Err(reply.error);
      }
      match reply.value.text
      case Some(cid) => r := Ok(cid);
      case None => r := Ok("");
    }

    /** Whether it returned an error. */
    method SetSceneParcels(scene: string, parcels: seq<string>) returns (err: bool)
      modifies this
      ensures err <==> parcels == [] || failures > old(failures)
      ensures failures >= old(failures)
      ensures !err ==> ix == SetScene(old(ix), scene, parcels)
      ensures err ==> Interrupted(old(ix), scene, parcels, ix)
      ensures !err ==>
                && scene in ix.sceneParcels && |parcels| <= |ix.sceneParcels[scene]|
                && (forall i :: 0 <= i < |parcels| ==> ix.sceneParcels[scene][i] == parcels[|parcels| - 1 - i])
                && (forall p :: p in parcels ==> p in ix.parcelCid && ix.parcelCid[p] == scene)
    {
      CompletedElsewhere(ix, scene, parcels);
      hide Partial, Step;
      assert Boundary(ix, parcels, {}, false, 0);
      NothingYet(ix, scene, parcels);
      if |parcels| == 0 {
        return true;
      }
      CompletedList(ix, scene, parcels);
      err := ReadOwnersAndDelete(scene, parcels);
      if err {
        return true;
      }
      ghost var owners := Owners(old(ix), parcels);
      PushOne(old(ix), scene, parcels, owners);
      var pushReply := Issue(PushScene(scene, parcels));
      ghost var pushed := pushReply.Ok? || ix != Partial(old(ix), scene, parcels, owners, false, 0);
      var i := 0;
      while i < |parcels|
        invariant 0 <= i <= |parcels|
        invariant pushReply.Ok? ==> pushed
        invariant ix == Partial(old(ix), scene, parcels, owners, pushed, i)
        invariant failures >= old(failures)
        invariant pushReply.Ok? <==> failures == old(failures)
      {
        RepointOne(old(ix), scene, parcels, owners, pushed, i);
        assert Boundary(old(ix), parcels, owners, pushed, i) && Boundary(old(ix), parcels, owners, pushed, i + 1);
        var setReply := Issue(SetParcel(parcels[i], scene));
        if setReply.Err? {
          return true;
        }
        i := i + 1;
      }
      assert Boundary(old(ix), parcels, owners, pushed, |parcels|);
      return pushReply.Err?;
    }

    /** The first half of SetSceneParcels: find the scenes the parcels belong to,
        then delete the lists of all of them, in no particular order. */
    method ReadOwnersAndDelete(ghost scene: string, parcels: seq<string>) returns (err: bool)
      modifies this
      ensures err <==> failures > old(failures)
      ensures failures >= old(failures)
      ensures !err ==> ix == Partial(old(ix), scene, parcels, Owners(old(ix), parcels), false, 0)
      ensures err ==> Interrupted(old(ix), scene, parcels, ix)
    {
      hide Partial, Step;
      assert Boundary(ix, parcels, {}, false, 0);
      NothingYet(ix, scene, parcels);
      var cids: set<string> := {};
      var i := 0;
      while i < |parcels|
        invariant 0 <= i <= |parcels|
        invariant ix == old(ix) && failures == old(failures)
        invariant cids == Owners(ix, parcels[..i])
      {
        assert parcels[..i + 1] == parcels[..i] + [parcels[i]];
        var cid := GetParcelCID(parcels[i]);
        if cid.Err? {
          return true;
        }
        cids := cids + {cid.value};
        i := i + 1;
      }
      assert parcels[..i] == parcels;
      assert cids - cids == {};
      var rest := cids;
      while rest != {}
        invariant rest <= cids && failures == old(failures)
        invariant ix == Partial(old(ix), scene, parcels, cids - rest, false, 0)
        decreases rest
      {
        var cid :| cid in rest;
        assert Boundary(old(ix), parcels, cids - rest, false, 0);
        assert Boundary(old(ix), parcels, cids - (rest - {cid}), false, 0);
        DeleteOne(old(ix), scene, parcels, cids - rest, cid);
        assert cids - rest + {cid} == cids - (rest - {cid});
        var reply := Issue(DelScene(cid));
        if reply.Err? {
          return true;
        }
        rest := rest - {cid};
      }
      assert cids - {} == cids;
      return false;
    }

    method GetSceneParcels(cid: string) returns (r: Result<seq<string>, RedisError>)
      modifies this
      ensures ix == old(ix)
      ensures r.Ok? ==> r.value == ListOf(ix, cid) && failures == old(failures)
      ensures r.Err? ==> failures > old(failures)
    {
      var reply := Issue(RangeScene(cid));
      r := if reply.Ok? then Ok(reply.value.texts) else Err(reply.error);
    }

    method ProcessedParcel(pid: string) returns (r: Result<bool, RedisError>)
      modifies this
      ensures ix == old(ix)
      ensures r.Ok? ==> r.value == (pid in ix.processed) && failures == old(failures)
      ensures r.Err? ==> failures > old(failures)
    {
      var reply := Issue(IsProcessed(pid));
      r := if reply.Ok? then Ok(reply.value.flag) else Err(reply.error);
    }

    method SetProcessedParcel(pid: string) returns (err: bool)
      modifies this
      ensures !err ==> ix == Step(old(ix), AddProcessed(pid)) && failures == old(failures)
      ensures err ==> ix in {old(ix), Step(old(ix), AddProcessed(pid))} && failures > old(failures)
    {
      var reply := Issue(AddProcessed(pid));
      err := reply.Err?;
    }

    method AddCID(cid: string) returns (err: bool)
      modifies this
      ensures !err ==> ix == Step(old(ix), AddUploaded(cid)) && failures == old(failures)
      ensures err ==> ix in {old(ix), Step(old(ix), AddUploaded(cid))} && failures > old(failures)
    {
      var reply := Issue(AddUploaded(cid));
      err := reply.Err?;
    }

    method IsContentMember(cid: string) returns (r: Result<bool, RedisError>)
      modifies this
      ensures ix == old(ix)
      ensures r.Ok? ==> r.value == (cid in ix.uploaded) && failures == old(failures)
      ensures r.Err? ==> failures > old(failures)
    {
      var reply := Issue(IsUploaded(cid));
      r := if reply.Ok? then Ok(reply.value.flag) else Err(reply.error);
    }

    method StoreContent(root: string, name: string, cid: string) returns (err: bool)
      modifies this
      ensures !err ==> ix == Step(old(ix), SetContent(root, name, cid)) && failures == old(failures)
      ensures err ==> ix in {old(ix), Step(old(ix), SetContent(root, name, cid))} && failures > old(failures)
    {
      var reply := Issue(SetContent(root, name, cid));
      err := reply.Err?;
    }

    method StoreMetadata(root: string, m: Metadata) returns (err: bool)
      modifies this
      ensures !err ==> ix == Step(old(ix), SetMetadata(root, FieldsOf(m))) && failures == old(failures)
      ensures err ==> ix in {old(ix), Step(old(ix), SetMetadata(root, FieldsOf(m)))} && failures > old(failures)
    {
      var reply := Issue(SetMetadata(root, FieldsOf(m)));
      err := reply.Err?;
    }

    /** Two writes to one family of keys, root to scene and scene to root. */
    method SaveRootCidSceneCid(root: string, scene: string) returns (err: bool)
      modifies this
      ensures !err ==> ix == LinkScene(old(ix), root, scene) && failures == old(failures)
      ensures err ==> failures > old(failures)
                      && ix in {old(ix), Step(old(ix), SetRootScene(root, scene)), LinkScene(old(ix), root, scene)}
    {
      var first := Issue(SetRootScene(root, scene));
      if first.Err? {
        return true;
      }
      var second := Issue(SetRootScene(scene, root));
      err := second.Err?;
    }

    method GetSceneCid(root: string) returns (r: Result<string, RedisError>)
      modifies this
      ensures ix == old(ix)
      ensures r.Ok? ==> Lookup(ix.rootScene, root) == Some(r.value)
      ensures r.Err? ==> r.error == if failures == old(failures) then Nil else Failure
      ensures r == Err(Nil) ==> Lookup(ix.rootScene, root) == None
      ensures failures >= old(failures) && (r != Err(Failure) ==> failures == old(failures))
    {
      var reply := Issue(GetRootScene(root));
      if reply.Err? {
        return Err(reply.error);
      }
      match reply.value.text
      case Some(cid) => r := Ok(cid);
      case None => r := Err(Nil);
    }

    /** The same read as GetSceneCid: both directions share their keys. */
    method GetRootCid(scene: string) returns (r: Result<string, RedisError>)
      modifies this
      ensures ix == old(ix)
      ensures r.Ok? ==> Lookup(ix.rootScene, scene) == Some(r.value)
      ensures r.Err? ==> r.error == if failures == old(failures) then Nil else Failure
      ensures r == Err(Nil) ==> Lookup(ix.rootScene, scene) == None
      ensures failures >= old(failures) && (r != Err(Failure) ==> failures == old(failures))
    {
      r := GetSceneCid(scene);
    }

    /** The content hash of the scene a parcel maps to. A failed read is reported
        in the same way as an unknown parcel. */
    method GetParcelContent(pid: string) returns (r: Option<Fields>)
      modifies this
      ensures ix == old(ix) && failures >= old(failures)
      ensures failures == old(failures) ==> r == InfoOf(ix, ix.content, pid)
      ensures failures > old(failures) ==> r == None
    {
      var reply := Issue(GetParcel(pid));
      if reply.Err? || reply.value.text.None? {
        return None;
      }
      var hash := Issue(GetContent(reply.value.text.value));
      return if hash.Err? then None else Some(hash.value.fields);
    }

    /** The metadata of the scene a parcel maps to, its numbers converted. */
    method GetParcelMetadata(pid: string) returns (r: Result<Option<map<string, Value>>, RedisError>)
      modifies this
      ensures ix == old(ix) && failures >= old(failures)
      ensures failures == old(failures) ==>
                match InfoOf(ix, ix.metadata, pid)
                case None => r == Ok(None)
                case Some(fields) =>
                  (Typed(fields).Some? ==> r == Ok(Typed(fields))) && (Typed(fields).None? ==> r.Err?)
      ensures failures > old(failures) ==> r.Err?
    {
      var reply := Issue(GetParcel(pid));
      if reply.Err? {
        return Err(reply.error);
      }
      if reply.value.text.None? {
        return Ok(None);
      }
      var hash := Issue(GetMetadata(reply.value.text.value));
      if hash.Err? {
        return Err(hash.error);
      }
      var metadata := ConvertAll(hash.value.fields);
      return if metadata.None? then Err(Failure) else Ok(metadata);
    }

    method ConvertAll(fields: Fields) returns (r: Option<map<string, Value>>)
      ensures r == Typed(fields)
    {
      hide Convert;
      var metadata: map<string, Value> := map[];
      var rest := fields.Keys;
      while rest != {}
        invariant rest <= fields.Keys
        invariant forall k :: k in fields && k !in rest ==> Convert(k, fields[k]).Some?
        invariant metadata.Keys == fields.Keys - rest
        invariant forall k :: k in metadata ==> metadata[k] == Convert(k, fields[k]).value
        decreases rest
      {
        var key :| key in rest;
        var value := Convert(key, fields[key]);
        if value.None? {
          return None;
        }
        metadata := metadata[key := value.value];
        rest := rest - {key};
      }
      assert metadata == Typed(fields).value;
      return Some(metadata);
    }
  }
}
