/** The state the service keeps in Redis, one map for each family of keys, and
    the effect and reply of each command data/redis.go issues on it. */
module SceneIndex {
  import opened Results

  type Fields = map<string, string>

  datatype Index = Index(
    parcelCid: map<string, string>,         // "x,y" -> root CID
    sceneParcels: map<string, seq<string>>, // root CID -> parcels
    processed: set<string>,                 // parcels whose scene list was written
    uploaded: set<string>,                  // CIDs known to be stored
    content: map<string, Fields>,           // root CID -> (file name -> file CID)
    metadata: map<string, Fields>,          // root CID -> metadata
    rootScene: map<string, string>)         // root CID -> scene CID and scene CID -> root CID

  const EMPTY_INDEX := Index(map[], map[], {}, {}, map[], map[], map[])

  datatype Command =
    | GetParcel(pid: string)
    | SetParcel(pid: string, cid: string)
    | DelScene(cid: string)
    | PushScene(cid: string, pids: seq<string>)
    | RangeScene(cid: string)
    | AddProcessed(pid: string)
    | IsProcessed(pid: string)
    | AddUploaded(cid: string)
    | IsUploaded(cid: string)
    | SetContent(root: string, name: string, cid: string)
    | GetContent(root: string)
    | SetMetadata(root: string, fields: Fields)
    | GetMetadata(root: string)
    | SetRootScene(key: string, cid: string)
    | GetRootScene(key: string)

  datatype Reply = Done | Text(text: Option<string>) | Texts(texts: seq<string>) | Hash(fields: Fields) | Flag(flag: bool)

  function HashOf(m: map<string, Fields>, key: string): Fields {
    if key in m then m[key] else map[]
  }

  function ListOf(ix: Index, cid: string): seq<string> {
    if cid in ix.sceneParcels then ix.sceneParcels[cid] else []
  }

  function Lookup(m: map<string, string>, key: string): Option<string> {
    if key in m then Some(m[key]) else None
  }

  function Reverse(s: seq<string>): (r: seq<string>)
    ensures |r| == |s|
    ensures forall x :: x in r <==> x in s
  {
    if s == [] then [] else Reverse(s[1..]) + [s[0]]
  }

  lemma {:induction false} ReversedAt(s: seq<string>, i: nat)
    requires i < |s|
    ensures Reverse(s)[i] == s[|s| - 1 - i]
  {
    if i == |s| - 1 {
    } else {
      ReversedAt(s[1..], i);
    }
  }

  /** LPUSH pushes the elements one at a time at the head of the list. */
  function Push(lists: map<string, seq<string>>, cid: string, pids: seq<string>): map<string, seq<string>> {
    var tail := if cid in lists then lists[cid] else [];
    if pids == [] then lists else lists[cid := Reverse(pids) + tail]
  }

  function Step(ix: Index, c: Command): Index {
    match c
    case SetParcel(p, cid) => ix.(parcelCid := ix.parcelCid[p := cid])
    case DelScene(cid) => ix.(sceneParcels := ix.sceneParcels - {cid})
    case PushScene(cid, pids) => ix.(sceneParcels := Push(ix.sceneParcels, cid, pids))
    case AddProcessed(p) => ix.(processed := ix.processed + {p})
    case AddUploaded(cid) => ix.(uploaded := ix.uploaded + {cid})
    case SetContent(root, name, cid) => ix.(content := ix.content[root := HashOf(ix.content, root)[name := cid]])
    case SetMetadata(root, fields) => ix.(metadata := ix.metadata[root := HashOf(ix.metadata, root) + fields])
    case SetRootScene(key, cid) => ix.(rootScene := ix.rootScene[key := cid])
    case _ => ix
  }

  function Answer(ix: Index, c: Command): Reply {
    match c
    case GetParcel(p) => Text(Lookup(ix.parcelCid, p))
    case RangeScene(cid) => Texts(ListOf(ix, cid))
    case IsProcessed(p) => Flag(p in ix.processed)
    case IsUploaded(cid) => Flag(cid in ix.uploaded)
    case GetContent(root) => Hash(HashOf(ix.content, root))
    case GetMetadata(root) => Hash(HashOf(ix.metadata, root))
    case GetRootScene(key) => Text(Lookup(ix.rootScene, key))
    case _ => Done
  }

  // ---------- SetSceneParcels ----------

  /** The CID a parcel maps to, the empty string if it has none. */
  function CidOf(ix: Index, pid: string): string {
    if pid in ix.parcelCid then ix.parcelCid[pid] else ""
  }

  function Owners(ix: Index, pids: seq<string>): set<string> {
    set p | p in pids :: CidOf(ix, p)
  }

  function Repoint(m: map<string, string>, scene: string, pids: seq<string>): map<string, string> {
    m + map p | p in pids :: scene
  }

  /** The index after SetSceneParcels(scene, pids) has deleted the lists of
      `removed`, pushed the new list or not, and repointed the first k parcels. */
  function Partial(ix: Index, scene: string, pids: seq<string>, removed: set<string>, pushed: bool, k: nat): Index
    requires k <= |pids|
  {
    var lists := ix.sceneParcels - removed;
    ix.(sceneParcels := if pushed then Push(lists, scene, pids) else lists,
        parcelCid := Repoint(ix.parcelCid, scene, pids[..k]))
  }

  /** The index after a SetSceneParcels(scene, pids) that ran to its end. */
  function SetScene(ix: Index, scene: string, pids: seq<string>): Index {
    Partial(ix, scene, pids, Owners(ix, pids), true, |pids|)
  }

  /** The command boundaries of SetSceneParcels: the old lists go first, and only
      when all are gone is the new list pushed and are parcels repointed. A failed
      push does not keep the parcels from being repointed. */
  predicate Boundary(ix: Index, pids: seq<string>, removed: set<string>, pushed: bool, k: nat) {
    && removed <= Owners(ix, pids)
    && k <= |pids|
    && (pushed || k > 0 ==> removed == Owners(ix, pids))
  }

  /** ix' is where some interrupted SetSceneParcels(scene, pids) leaves ix. */
  ghost predicate Interrupted(ix: Index, scene: string, pids: seq<string>, ix': Index) {
    exists removed, pushed, k ::
      Boundary(ix, pids, removed, pushed, k) && ix' == Partial(ix, scene, pids, removed, pushed, k)
  }

  lemma NothingYet(ix: Index, scene: string, pids: seq<string>)
    ensures Partial(ix, scene, pids, {}, false, 0) == ix
  {
    assert ix.sceneParcels - {} == ix.sceneParcels;
    assert Repoint(ix.parcelCid, scene, []) == ix.parcelCid;
  }

  lemma DeleteOne(ix: Index, scene: string, pids: seq<string>, removed: set<string>, cid: string)
    ensures Step(Partial(ix, scene, pids, removed, false, 0), DelScene(cid))
            == Partial(ix, scene, pids, removed + {cid}, false, 0)
  {
    assert ix.sceneParcels - removed - {cid} == ix.sceneParcels - (removed + {cid});
  }

  lemma PushOne(ix: Index, scene: string, pids: seq<string>, removed: set<string>)
    ensures Step(Partial(ix, scene, pids, removed, false, 0), PushScene(scene, pids))
            == Partial(ix, scene, pids, removed, true, 0)
  {
  }

  lemma RepointOne(ix: Index, scene: string, pids: seq<string>, removed: set<string>, pushed: bool, k: nat)
    requires k < |pids|
    ensures Step(Partial(ix, scene, pids, removed, pushed, k), SetParcel(pids[k], scene))
            == Partial(ix, scene, pids, removed, pushed, k + 1)
  {
    assert pids[..k + 1] == pids[..k] + [pids[k]];
    assert Repoint(ix.parcelCid, scene, pids[..k])[pids[k] := scene] == Repoint(ix.parcelCid, scene, pids[..k + 1]);
  }

  /** The list that a completed call leaves for its scene: the last parcel first,
      followed by what the scene listed before, unless it owned one of them. */
  lemma CompletedList(ix: Index, scene: string, pids: seq<string>)
    requires pids != []
    ensures var ix' := SetScene(ix, scene, pids);
            && scene in ix'.sceneParcels && |pids| <= |ix'.sceneParcels[scene]|
            && (forall i :: 0 <= i < |pids| ==> ix'.sceneParcels[scene][i] == pids[|pids| - 1 - i])
            && ix'.sceneParcels[scene][|pids|..]
               == if scene !in ix.sceneParcels || exists p :: p in pids && Owns(ix, scene, p) then []
                  else ix.sceneParcels[scene]
  {
    forall i | 0 <= i < |pids|
      ensures Reverse(pids)[i] == pids[|pids| - 1 - i]
    {
      ReversedAt(pids, i);
    }
    hide Reverse;
    assert scene in Owners(ix, pids) <==> exists p :: p in pids && Owns(ix, scene, p);
  }

  /** The parcel maps to the scene; one that maps to none counts for the empty CID. */
  predicate Owns(ix: Index, scene: string, p: string) {
    (p in ix.parcelCid && ix.parcelCid[p] == scene) || (p !in ix.parcelCid && scene == "")
  }

  /** What a completed call does to all else. */
  lemma CompletedElsewhere(ix: Index, scene: string, pids: seq<string>)
    ensures var ix' := SetScene(ix, scene, pids);
            && ix' == ix.(parcelCid := ix'.parcelCid, sceneParcels := ix'.sceneParcels)
            && (forall p :: p in pids ==> p in ix'.parcelCid && ix'.parcelCid[p] == scene)
            && (forall p :: p !in pids ==> (p in ix'.parcelCid <==> p in ix.parcelCid))
            && (forall p :: p !in pids && p in ix.parcelCid ==> ix'.parcelCid[p] == ix.parcelCid[p])
            && (forall t :: t != scene ==>
                  (t in ix'.sceneParcels <==> t in ix.sceneParcels && forall p :: p in pids ==> !Owns(ix, t, p)))
            && (forall t :: t != scene && t in ix'.sceneParcels ==> ix'.sceneParcels[t] == ix.sceneParcels[t])
  {
    hide Reverse;
    assert pids[..|pids|] == pids;
    forall t
      ensures t in Owners(ix, pids) <==> exists p :: p in pids && Owns(ix, t, p)
    {
    }
  }

  // ---------- the other client operations ----------

  /** The hash stored for the root CID that a parcel maps to. */
  function InfoOf(ix: Index, m: map<string, Fields>, pid: string): Option<Fields> {
    if pid in ix.parcelCid then Some(HashOf(m, ix.parcelCid[pid])) else None
  }

  function LinkScene(ix: Index, root: string, scene: string): Index {
    Step(Step(ix, SetRootScene(root, scene)), SetRootScene(scene, root))
  }
}
