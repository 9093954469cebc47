/** internal/handlers/mappings_handler.go: the readers /scenes, /parcel_info and
    /mappings. */
module Mappings {
  import opened Results
  import opened ParcelId
  import opened Rectangle
  import opened SceneIndex
  import opened Metadata
  import opened Redis

  datatype SceneEntry = SceneEntry(parcelId: string, rootCid: string, sceneCid: string)

  datatype ContentElement = ContentElement(file: string, cid: string)

  datatype ParcelContent = ParcelContent(
    parcelId: string, contents: seq<ContentElement>, rootCid: string, publisher: string)

  datatype SceneContent = SceneContent(rootCid: string, sceneCid: string, content: Option<ParcelContent>)

  /** 200 with a body, 400, 500 and 503; Crashed: the handler panicked. */
  datatype Response<+T> = Answered(body: T) | BadRequest | InternalError | Unavailable | Crashed

  const MAX_PARCELS := 200

  // ---------- /scenes ----------

  /** The roots that processed parcels among pids map to. */
  function RootsIn(ix: Index, pids: seq<string>): set<string> {
    set p | p in pids && CidOf(ix, p) != "" && p in ix.processed :: CidOf(ix, p)
  }

  function SceneCidFor(ix: Index, root: string): string {
    if root in ix.rootScene then ix.rootScene[root] else ""
  }

  function EntriesFrom(pids: seq<string>, root: string, sceneCid: string): seq<SceneEntry> {
    seq(|pids|, i requires 0 <= i < |pids| => SceneEntry(pids[i], root, sceneCid))
  }

  /** The lists of the roots, one after the other. */
  function Flatten(ix: Index, order: seq<string>): seq<SceneEntry> {
    if order == [] then []
    else
      var root := order[|order| - 1];
      Flatten(ix, order[..|order| - 1]) + EntriesFrom(ListOf(ix, root), root, SceneCidFor(ix, root))
  }

  /** Every entry is of the list of one of the roots, with its scene CID or none. */
  predicate EntriesOfLists(ix: Index, cids: set<string>, ret: seq<SceneEntry>) {
    forall e :: e in ret ==>
      e.rootCid in cids && e.parcelId in ListOf(ix, e.rootCid) && e.sceneCid in {"", SceneCidFor(ix, e.rootCid)}
  }

  /** The lists of the roots are there completely. */
  predicate WholeLists(ix: Index, cids: set<string>, ret: seq<SceneEntry>) {
    forall c, p :: c in cids && p in ListOf(ix, c) ==> exists e :: e in ret && e.rootCid == c && e.parcelId == p
  }

  lemma MoreEntries(ix: Index, cids: set<string>, done: set<string>, ret: seq<SceneEntry>, cid: string, sceneCid: string)
    requires EntriesOfLists(ix, cids, ret) && WholeLists(ix, done, ret) && cid in cids && sceneCid in {"", SceneCidFor(ix, cid)}
    ensures EntriesOfLists(ix, cids, ret + EntriesFrom(ListOf(ix, cid), cid, sceneCid))
    ensures WholeLists(ix, done + {cid}, ret + EntriesFrom(ListOf(ix, cid), cid, sceneCid))
  {
    var list, entries := ListOf(ix, cid), EntriesFrom(ListOf(ix, cid), cid, sceneCid);
    hide ListOf, SceneCidFor;
    forall c, p | c in done + {cid} && p in ListOf(ix, c)
      ensures exists e :: e in ret + entries && e.rootCid == c && e.parcelId == p
    {
      if c == cid {
        var i :| 0 <= i < |list| && list[i] == p;
        assert entries[i] in ret + entries;
      } else {
        var e :| e in ret && e.rootCid == c && e.parcelId == p;
        assert e in ret + entries;
      }
    }
  }

  lemma NothingListed(ix: Index, cids: set<string>)
    ensures EntriesOfLists(ix, cids, []) && WholeLists(ix, cids - cids, [])
  {
  }

  predicate Orders(order: seq<string>, s: set<string>) {
    (set c | c in order) == s && |order| == |s|
  }

  /** The entries of an answer, in terms of lists and links. */
  lemma {:induction false} FlattenIs(ix: Index, order: seq<string>, e: SceneEntry)
    ensures e in Flatten(ix, order) <==>
              && e.rootCid in order && e.rootCid in ix.sceneParcels && e.parcelId in ix.sceneParcels[e.rootCid]
              && e.sceneCid == if e.rootCid in ix.rootScene then ix.rootScene[e.rootCid] else ""
  {
    if order == [] {
    } else {
      var n := |order| - 1;
      FlattenIs(ix, order[..n], e);
      assert order == order[..n] + [order[n]];
      var list, root := ListOf(ix, order[n]), order[n];
      if i :| 0 <= i < |list| && list[i] == e.parcelId {
        assert EntriesFrom(list, root, SceneCidFor(ix, root))[i] == SceneEntry(e.parcelId, root, SceneCidFor(ix, root));
      }
    }
  }

  /** Each root adds its list, in the order of the list. */
  lemma FlattenNext(ix: Index, order: seq<string>, root: string, i: nat)
    requires root in ix.sceneParcels && i < |ix.sceneParcels[root]|
    ensures |Flatten(ix, order + [root])| == |Flatten(ix, order)| + |ix.sceneParcels[root]|
    ensures Flatten(ix, order + [root])[..|Flatten(ix, order)|] == Flatten(ix, order)
    ensures Flatten(ix, order + [root])[|Flatten(ix, order)| + i].parcelId == ix.sceneParcels[root][i]
  {
    assert (order + [root])[..|order|] == order;
  }

  lemma RootsInPlainTerms(ix: Index, pids: seq<string>, root: string)
    ensures root in RootsIn(ix, pids) <==>
              root != "" && exists p :: p in pids && p in ix.processed && p in ix.parcelCid && ix.parcelCid[p] == root
  {
    if p :| p in pids && p in ix.processed && p in ix.parcelCid && ix.parcelCid[p] == root && root != "" {
      assert CidOf(ix, p) in RootsIn(ix, pids);
    }
  }

  /** A parcel of pids that is flagged as processed maps to the root. */
  predicate MetByParcel(ix: Index, pids: seq<string>, root: string) {
    root != "" && exists p :: p in pids && p in ix.processed && p in ix.parcelCid && ix.parcelCid[p] == root
  }

  predicate IsListed(ix: Index, e: SceneEntry) {
    e.rootCid in ix.sceneParcels && e.parcelId in ix.sceneParcels[e.rootCid]
  }

  predicate HasItsSceneCid(ix: Index, e: SceneEntry) {
    e.sceneCid == if e.rootCid in ix.rootScene then ix.rootScene[e.rootCid] else ""
  }

  lemma EntriesInPlainTerms(ix: Index, pids: seq<string>)
    ensures forall e: SceneEntry :: e.rootCid in RootsIn(ix, pids) && e.parcelId in ListOf(ix, e.rootCid)
                                    <==> MetByParcel(ix, pids, e.rootCid) && IsListed(ix, e)
    ensures forall order, e :: Orders(order, RootsIn(ix, pids)) ==>
              (e in Flatten(ix, order) <==> MetByParcel(ix, pids, e.rootCid) && IsListed(ix, e) && HasItsSceneCid(ix, e))
  {
    forall root
      ensures root in RootsIn(ix, pids) <==> MetByParcel(ix, pids, root)
    {
      RootsInPlainTerms(ix, pids, root);
    }
    hide RootsIn, MetByParcel;
    forall order, e | Orders(order, RootsIn(ix, pids))
      ensures e in Flatten(ix, order) <==> MetByParcel(ix, pids, e.rootCid) && IsListed(ix, e) && HasItsSceneCid(ix, e)
    {
      FlattenIs(ix, order, e);
      assert e.rootCid in order <==> e.rootCid in set c | c in order;
    }
  }

  // ---------- parcel information ----------

  datatype Info = NoInfo | Failed | Found(content: ParcelContent) | Panicked

  /** elements lists the pairs of hash, each once. */
  predicate ListsHash(elements: seq<ContentElement>, hash: Fields) {
    && |elements| == |hash|
    && (forall e :: e in elements ==> e.file in hash && hash[e.file] == e.cid)
    && (forall n :: n in hash ==> ContentElement(n, hash[n]) in elements)
  }

  predicate HasText(typed: map<string, Value>, key: string) {
    key in typed && typed[key].Str?
  }

  /** What GetParcelInformation answers for a parcel when Redis does not fail. */
  predicate InfoIs(ix: Index, pid: string, info: Info) {
    var hash := InfoOf(ix, ix.content, pid);
    if hash.None? then info == NoInfo
    else
      var typed := Typed(HashOf(ix.metadata, ix.parcelCid[pid]));
      if typed.None? then info == Failed
      else if !HasText(typed.value, "root_cid") || !HasText(typed.value, "pubkey") then info == Panicked
      else
        && info.Found? && info.content.parcelId == pid && ListsHash(info.content.contents, hash.value)
        && info.content.rootCid == typed.value["root_cid"].text && info.content.publisher == typed.value["pubkey"].text
  }

  /** The same in terms of the maps: nothing for an unmapped parcel, a failure if a
      numeric field of its root's metadata is no number, a panic if the root or the
      publisher is missing there, and else these and the whole content hash. */
  lemma InfoInPlainTerms(ix: Index, pid: string, info: Info)
    requires InfoIs(ix, pid, info)
    ensures pid !in ix.parcelCid ==> info == NoInfo
    ensures pid in ix.parcelCid ==>
              var root := ix.parcelCid[pid];
              var fields := if root in ix.metadata then ix.metadata[root] else map[];
              if exists k :: k in fields && k in {"validityType", "sequence", "timestamp"} && ParseInt(fields[k]) == None then
                info == Failed
              else if "root_cid" !in fields || "pubkey" !in fields then info == Panicked
              else
                && info.Found? && info.content.parcelId == pid
                && info.content.rootCid == fields["root_cid"] && info.content.publisher == fields["pubkey"]
                && ListsHash(info.content.contents, if root in ix.content then ix.content[root] else map[])
  {
    if pid in ix.parcelCid {
      TypedInPlainTerms(HashOf(ix.metadata, ix.parcelCid[pid]));
    }
    hide Typed, ListsHash;
  }

  datatype StringPair = StringPair(parcel: string, sceneCid: string)

  /** The root a requested CID stands for, with its first parcel and scene CID: the
      CID is a root with a list, or else the scene CID of such a root. */
  function Resolve(ix: Index, cid: string): Option<(string, StringPair)> {
    if ListOf(ix, cid) != [] then Some((cid, StringPair(ListOf(ix, cid)[0], SceneCidFor(ix, cid))))
    else
      var root := SceneCidFor(ix, cid);
      if ListOf(ix, root) == [] then None
      else if cid == "" then Some((cid, StringPair(ListOf(ix, root)[0], root)))
      else Some((root, StringPair(ListOf(ix, root)[0], cid)))
  }

  /** A CID stands for itself if it has a list, and else for the root it is linked
      to, the empty one if to none, if that has one. */
  predicate StandsFor(ix: Index, cid: string, root: string) {
    var listed := cid in ix.sceneParcels && ix.sceneParcels[cid] != [];
    && cid != "" && root in ix.sceneParcels && ix.sceneParcels[root] != []
    && root == if listed then cid else if cid in ix.rootScene then ix.rootScene[cid] else ""
  }

  lemma ResolveInPlainTerms(ix: Index, cid: string)
    requires cid != ""
    ensures Resolve(ix, cid).Some? <==> exists root :: StandsFor(ix, cid, root)
    ensures forall root :: StandsFor(ix, cid, root) ==>
              Resolve(ix, cid)
              == Some((root, StringPair(ix.sceneParcels[root][0],
                                        if root != cid then cid else if cid in ix.rootScene then ix.rootScene[cid] else "")))
  {
    if Resolve(ix, cid).Some? {
      assert StandsFor(ix, cid, Resolve(ix, cid).value.0);
    }
  }

  /** The answer for a CID, perhaps without its scene CID. */
  predicate ResolvesTo(ix: Index, cid: string, root: string, pair: StringPair) {
    match Resolve(ix, cid)
    case None => false
    case Some((r, full)) => root == r && pair.parcel == full.parcel && pair.sceneCid in {"", full.sceneCid}
  }

  /** e answers for what cid resolves to, perhaps without its scene CID or content. */
  predicate AnswersCid(ix: Index, cid: string, e: SceneContent) {
    match Resolve(ix, cid)
    case None => false
    case Some((root, pair)) =>
      && e.rootCid == root && e.sceneCid in {"", pair.sceneCid}
      && (e.content.Some? ==> InfoIs(ix, pair.parcel, Found(e.content.value)))
  }

  /** The answers for a list of CIDs, later ones over earlier ones. */
  function Collect(ix: Index, cids: seq<string>): map<string, StringPair> {
    if cids == [] then map[]
    else
      var n := |cids| - 1;
      match Resolve(ix, cids[n])
      case None => Collect(ix, cids[..n])
      case Some((root, pair)) => Collect(ix, cids[..n])[root := pair]
  }

  /** Every root that an asked CID stands for is answered for, through the first
      parcel of its list; the last CID asked for it decides the scene CID. */
  lemma {:induction false} CollectedInPlainTerms(ix: Index, cids: seq<string>, i: nat, root: string)
    requires i < |cids| && StandsFor(ix, cids[i], root) && root != ""
    ensures root in Collect(ix, cids) && Collect(ix, cids)[root].parcel == ix.sceneParcels[root][0]
    ensures (forall j :: i < j < |cids| ==> !StandsFor(ix, cids[j], root)) ==>
              Collect(ix, cids)[root].sceneCid
              == if root != cids[i] then cids[i] else if root in ix.rootScene then ix.rootScene[root] else ""
    decreases |cids|
  {
    var n := |cids| - 1;
    ResolveInPlainTerms(ix, cids[i]);
    if cids[n] != "" {
      ResolveInPlainTerms(ix, cids[n]);
    }
    hide Resolve;
    if i < n {
      CollectedInPlainTerms(ix, cids[..n], i, root);
    }
  }

  /** e reports what is known about the parcel of pairs[e.rootCid]. */
  predicate Reports(ix: Index, pairs: map<string, StringPair>, e: SceneContent) {
    && e.rootCid in pairs
    && e.sceneCid == pairs[e.rootCid].sceneCid
    && InfoIs(ix, pairs[e.rootCid].parcel, if e.content.None? then NoInfo else Found(e.content.value))
  }

  /** The entries of ret answer for the given roots, one each, except for roots
      whose metadata cannot be read. */
  predicate AnswersFor(ix: Index, pairs: map<string, StringPair>, roots: set<string>, ret: seq<SceneContent>) {
    && (forall e :: e in ret ==> e.rootCid in roots && Reports(ix, pairs, e))
    && (forall i, j :: 0 <= i < j < |ret| ==> ret[i].rootCid != ret[j].rootCid)
    && (forall k :: k in roots && k in pairs ==>
          InfoIs(ix, pairs[k].parcel, Failed) || exists e :: e in ret && e.rootCid == k)
  }

  lemma NoAnswerFor(ix: Index, pairs: map<string, StringPair>, roots: set<string>, ret: seq<SceneContent>, root: string)
    requires AnswersFor(ix, pairs, roots, ret) && root in pairs && InfoIs(ix, pairs[root].parcel, Failed)
    ensures AnswersFor(ix, pairs, roots + {root}, ret)
  {
    hide InfoIs;
  }

  lemma OneMoreAnswer(ix: Index, pairs: map<string, StringPair>, roots: set<string>, ret: seq<SceneContent>, e: SceneContent)
    requires AnswersFor(ix, pairs, roots, ret) && Reports(ix, pairs, e) && e.rootCid !in roots
    ensures AnswersFor(ix, pairs, roots + {e.rootCid}, ret + [e])
  {
    hide InfoIs, Reports;
    assert e in ret + [e];
    assert forall f :: f in ret ==> f in ret + [e];
  }

  lemma AnswersItsCid(ix: Index, cid: string, pair: StringPair, e: SceneContent)
    requires ResolvesTo(ix, cid, e.rootCid, pair) && e.sceneCid == pair.sceneCid
    requires e.content.Some? ==> InfoIs(ix, pair.parcel, Found(e.content.value))
    ensures AnswersCid(ix, cid, e)
  {
    hide InfoIs, Resolve;
  }

  lemma OneMoreForCid(ix: Index, cids: seq<string>, rest: set<string>, ret: seq<SceneContent>, cid: string, e: SceneContent)
    requires SomeAnswers(ix, cids, rest + {e.rootCid}, ret) && e.rootCid !in rest && cid in cids && AnswersCid(ix, cid, e)
    ensures SomeAnswers(ix, cids, rest, ret + [e])
  {
    hide AnswersCid;
  }

  lemma OneFewer(ix: Index, cids: seq<string>, rest: set<string>, ret: seq<SceneContent>, root: string)
    requires SomeAnswers(ix, cids, rest, ret) && root in rest
    ensures SomeAnswers(ix, cids, rest - {root}, ret) && rest - {root} + {root} == rest
  {
    hide AnswersCid;
  }

  lemma NoAnswersYet(ix: Index, pairs: map<string, StringPair>)
    ensures AnswersFor(ix, pairs, pairs.Keys - pairs.Keys, [])
    ensures forall cids, rest :: SomeAnswers(ix, cids, rest, [])
  {
  }

  /** One entry for each root, none for the roots in rest, each for an asked CID. */
  predicate SomeAnswers(ix: Index, cids: seq<string>, rest: set<string>, ret: seq<SceneContent>) {
    && (forall i, j :: 0 <= i < j < |ret| ==> ret[i].rootCid != ret[j].rootCid)
    && (forall e :: e in ret ==> e.rootCid !in rest && exists c :: c in cids && AnswersCid(ix, c, e))
  }

  /** body answers for the root through the first parcel of its list, unless that
      cannot be read; and for a scene CID asked alone, with this scene CID. */
  predicate AnsweredFor(ix: Index, cids: seq<string>, body: seq<SceneContent>, cid: string, root: string)
    requires root in ix.sceneParcels && ix.sceneParcels[root] != []
  {
    var first := ix.sceneParcels[root][0];
    || InfoIs(ix, first, Failed)
    || exists e :: && e in body && e.rootCid == root
                   && InfoIs(ix, first, if e.content.None? then NoInfo else Found(e.content.value))
                   && (cids == [cid] && root != cid ==> e.sceneCid == cid)
  }

  lemma StandsForIsAnswered(ix: Index, cids: seq<string>, body: seq<SceneContent>, cid: string, root: string)
    requires cid in cids && StandsFor(ix, cid, root) && root != ""
    requires AnswersFor(ix, Collect(ix, cids), Collect(ix, cids).Keys, body)
    ensures AnsweredFor(ix, cids, body, cid, root)
  {
    var i :| 0 <= i < |cids| && cids[i] == cid;
    CollectedInPlainTerms(ix, cids, i, root);
    hide InfoIs, Collect;
  }

  /** Every root that an asked CID stands for is answered for. */
  ghost predicate AllAnswered(ix: Index, cids: seq<string>, body: seq<SceneContent>) {
    forall c, root :: c in cids && StandsFor(ix, c, root) && root != "" ==> AnsweredFor(ix, cids, body, c, root)
  }

  lemma AllAreAnswered(ix: Index, cids: seq<string>, body: seq<SceneContent>)
    requires AnswersFor(ix, Collect(ix, cids), Collect(ix, cids).Keys, body)
    ensures AllAnswered(ix, cids, body)
  {
    hide AnswersFor, Collect, AnsweredFor;
    forall c, root | c in cids && StandsFor(ix, c, root) && root != ""
      ensures AnsweredFor(ix, cids, body, c, root)
    {
      StandsForIsAnswered(ix, cids, body, c, root);
    }
  }

  predicate InfoAnswer(ix: Index, pairs: map<string, StringPair>, r: Response<seq<SceneContent>>) {
    match r
    case Answered(ret) => AnswersFor(ix, pairs, pairs.Keys, ret)
    case Crashed => exists k :: k in pairs && InfoIs(ix, pairs[k].parcel, Panicked)
    case _ => false
  }

  /** The contents found for pids, in their order. */
  predicate MappingsFor(ix: Index, pids: seq<string>, contents: seq<ParcelContent>) {
    if pids == [] then contents == []
    else
      var n := |pids| - 1;
      || (InfoIs(ix, pids[n], NoInfo) && MappingsFor(ix, pids[..n], contents))
      || (contents != [] && InfoIs(ix, pids[n], Found(contents[|contents| - 1]))
          && MappingsFor(ix, pids[..n], contents[..|contents| - 1]))
  }

  /** Some of the contents for pids, in their order, each at most once. */
  predicate SomeMappings(ix: Index, pids: seq<string>, contents: seq<ParcelContent>) {
    if pids == [] then contents == []
    else
      var n := |pids| - 1;
      || SomeMappings(ix, pids[..n], contents)
      || (contents != [] && InfoIs(ix, pids[n], Found(contents[|contents| - 1]))
          && SomeMappings(ix, pids[..n], contents[..|contents| - 1]))
  }

  lemma AppendOrder(order: seq<string>, s: set<string>, rest: set<string>, x: string)
    requires rest <= s && Orders(order, s - rest) && x in rest
    ensures Orders(order + [x], s - (rest - {x}))
  {
    assert s - (rest - {x}) == s - rest + {x};
  }

  lemma ReadSceneCid(ix: Index, root: string, read: Result<string, RedisError>)
    requires read.Ok? ==> Lookup(ix.rootScene, root) == Some(read.value)
    requires read == Err(Nil) ==> Lookup(ix.rootScene, root) == None
    ensures read != Err(Failure) ==> SceneCidFor(ix, root) == if read.Ok? then read.value else ""
  {
    match read
    case Ok(_) =>
    case Err(Nil) =>
    case Err(Failure) =>
  }

  class MappingsHandler {
    const redis: Redis

    constructor (redis: Redis)
      ensures this.redis == redis
    {
      this.redis := redis;
    }

    /** The first loop of GetScenes. Failed reads drop parcels silently. */
    method FindRoots(pids: seq<string>) returns (cids: set<string>)
      modifies redis
      ensures redis.ix == old(redis.ix) && redis.failures >= old(redis.failures)
      ensures cids <= RootsIn(redis.ix, pids)
      ensures redis.failures == old(redis.failures) ==> cids == RootsIn(redis.ix, pids)
    {
      cids := {};
      var i := 0;
      while i < |pids|
        invariant 0 <= i <= |pids|
        invariant redis.ix == old(redis.ix) && redis.failures >= old(redis.failures)
        invariant cids <= RootsIn(redis.ix, pids[..i])
        invariant redis.failures == old(redis.failures) ==> cids == RootsIn(redis.ix, pids[..i])
      {
        var pid := pids[i];
        assert pids[..i + 1] == pids[..i] + [pid];
        i := i + 1;
        var cid := redis.GetParcelCID(pid);
        if cid.Err? || cid.value == "" {
          continue;
        }
        var processed := redis.ProcessedParcel(pid);
        if processed.Err? || !processed.value {
          continue;
        }
        cids := cids + {cid.value};
      }
      assert pids[..i] == pids;
    }

    method AppendScene(ret: seq<SceneEntry>, parcels: seq<string>, root: string, sceneCid: string) returns (ret': seq<SceneEntry>)
      ensures ret' == ret + EntriesFrom(parcels, root, sceneCid)
    {
      ret' := ret;
      var i := 0;
      while i < |parcels|
        invariant 0 <= i <= |parcels|
        invariant ret' == ret + EntriesFrom(parcels[..i], root, sceneCid)
      {
        assert EntriesFrom(parcels[..i + 1], root, sceneCid)
            == EntriesFrom(parcels[..i], root, sceneCid) + [SceneEntry(parcels[i], root, sceneCid)];
        ret' := ret' + [SceneEntry(parcels[i], root, sceneCid)];
        i := i + 1;
      }
      assert parcels[..i] == parcels;
    }

    /** The second loop of GetScenes: the lists of the roots, in no particular order.
        A failed read of a scene CID leaves it empty. */
    method ListScenes(cids: set<string>) returns (r: Response<seq<SceneEntry>>)
      modifies redis
      ensures redis.ix == old(redis.ix) && redis.failures >= old(redis.failures)
      ensures r.Answered? || (r == InternalError && redis.failures > old(redis.failures))
      ensures redis.failures == old(redis.failures) ==>
                exists order :: Orders(order, cids) && r == Answered(Flatten(redis.ix, order))
      ensures r.Answered? ==> EntriesOfLists(redis.ix, cids, r.body) && WholeLists(redis.ix, cids, r.body)
    {
      hide ListOf, SceneCidFor, EntriesFrom, EntriesOfLists, WholeLists;
      NothingListed(redis.ix, cids);
      var ret: seq<SceneEntry> := [];
      ghost var order: seq<string> := [];
      var rest := cids;
      while rest != {}
        invariant rest <= cids
        invariant redis.ix == old(redis.ix) && redis.failures >= old(redis.failures)
        invariant Orders(order, cids - rest)
        invariant redis.failures == old(redis.failures) ==> ret == Flatten(redis.ix, order)
        invariant EntriesOfLists(redis.ix, cids, ret) && WholeLists(redis.ix, cids - rest, ret)
        decreases rest
      {
        var cid :| cid in rest;
        var parcels := redis.GetSceneParcels(cid);
        if parcels.Err? {
          return InternalError;
        }
        var sceneCid := redis.GetSceneCid(cid);
        var text := if sceneCid.Ok? then sceneCid.value else "";
        ReadSceneCid(redis.ix, cid, sceneCid);
        MoreEntries(redis.ix, cids, cids - rest, ret, cid, text);
        assert cids - rest + {cid} == cids - (rest - {cid});
        ret := AppendScene(ret, parcels.value, cid, text);
        AppendOrder(order, cids, rest, cid);
        assert (order + [cid])[..|order|] == order;
        order := order + [cid];
        rest := rest - {cid};
      }
      assert cids - rest == cids;
      return Answered(ret);
    }

    /** GET /scenes. Without failures the answer lists, in some order of the roots,
        the whole lists of the roots of the rectangle; with failures it is still
        made of entries of those lists. */
    method GetScenes(x1: int, y1: int, x2: int, y2: int) returns (r: Response<seq<SceneEntry>>)
      modifies redis
      ensures redis.ix == old(redis.ix) && redis.failures >= old(redis.failures)
      ensures r == BadRequest <==> Area(x1, y1, x2, y2) > MAX_PARCELS
      ensures r.Answered? || r == BadRequest || (r == InternalError && redis.failures > old(redis.failures))
      ensures redis.failures == old(redis.failures) && r.Answered? ==>
                exists order :: Orders(order, RootsIn(redis.ix, Ids(x1, y1, x2, y2))) && r.body == Flatten(redis.ix, order)
      ensures r == BadRequest <==> (Distance(x1, x2) + 1) * (Distance(y1, y2) + 1) > 200
      ensures r.Answered? ==>
                forall e :: e in r.body ==> MetByParcel(redis.ix, Ids(x1, y1, x2, y2), e.rootCid) && IsListed(redis.ix, e)
      ensures redis.failures == old(redis.failures) && r.Answered? ==>
                forall e :: e in r.body <==> && MetByParcel(redis.ix, Ids(x1, y1, x2, y2), e.rootCid)
                                             && IsListed(redis.ix, e) && HasItsSceneCid(redis.ix, e)
      ensures r.Answered? ==>
                forall e :: e in r.body ==> e.rootCid in RootsIn(redis.ix, Ids(x1, y1, x2, y2))
                                            && e.parcelId in ListOf(redis.ix, e.rootCid)
      ensures r.Answered? ==>
                forall e, p :: e in r.body && e.rootCid in redis.ix.sceneParcels && p in redis.ix.sceneParcels[e.rootCid] ==>
                  exists f :: f in r.body && f.rootCid == e.rootCid && f.parcelId == p
      ensures r.Answered? ==>
                forall e :: e in r.body ==>
                  e.sceneCid == "" || (e.rootCid in redis.ix.rootScene && e.sceneCid == redis.ix.rootScene[e.rootCid])
    {
      EntriesInPlainTerms(redis.ix, Ids(x1, y1, x2, y2));
      hide RootsIn, Ids, Orders, Flatten, Area, ListOf, Distance, MetByParcel, HasItsSceneCid;
      var pids := RectToParcels(x1, y1, x2, y2, MAX_PARCELS);
      if pids.None? {
        return BadRequest;
      }
      var cids := FindRoots(pids.value);
      r := ListScenes(cids);
    }

    method ListContent(content: Fields) returns (elements: seq<ContentElement>)
      ensures ListsHash(elements, content)
    {
      elements := [];
      var rest := content.Keys;
      while rest != {}
        invariant rest <= content.Keys
        invariant |elements| == |content.Keys - rest|
        invariant forall e :: e in elements ==> e.file in content && content[e.file] == e.cid
        invariant forall n :: n in content && n !in rest ==> ContentElement(n, content[n]) in elements
        decreases rest
      {
        var name :| name in rest;
        elements := elements + [ContentElement(name, content[name])];
        assert content.Keys - (rest - {name}) == content.Keys - rest + {name};
        rest := rest - {name};
      }
      assert content.Keys - rest == content.Keys;
    }

    method GetParcelInformation(pid: string) returns (info: Info)
      modifies redis
      ensures redis.ix == old(redis.ix) && redis.failures >= old(redis.failures)
      ensures redis.failures == old(redis.failures) ==> InfoIs(redis.ix, pid, info)
      ensures redis.failures > old(redis.failures) ==> info in {NoInfo, Failed}
      ensures info.Found? || info.Panicked? ==> InfoIs(redis.ix, pid, info)
    {
      hide Typed;
      var content := redis.GetParcelContent(pid);
      if content.None? {
        return NoInfo;
      }
      var elements := ListContent(content.value);
      var metadata := redis.GetParcelMetadata(pid);
      if metadata.Err? {
        return Failed;
      }
      if metadata.value.None? {
        return NoInfo;
      }
      var typed := metadata.value.value;
      if !HasText(typed, "root_cid") || !HasText(typed, "pubkey") {
        return Panicked;
      }
      return Found(ParcelContent(pid, elements, typed["root_cid"].text, typed["pubkey"].text));
    }

    /** One turn of the first loop of GetInfo: abort the request, skip the CID, or
        add an answer for it. */
    method ResolveCid(cid: string) returns (r: Result<Option<(string, StringPair)>, RedisError>)
      modifies redis
      ensures redis.ix == old(redis.ix) && redis.failures >= old(redis.failures)
      ensures r.Err? ==> redis.failures > old(redis.failures)
      ensures redis.failures == old(redis.failures) ==> r == Ok(Resolve(redis.ix, cid))
      ensures cid != "" && r.Ok? && r.value.Some? ==>
                var (root, pair) := r.value.value;
                ListOf(redis.ix, root) != [] && pair.parcel == ListOf(redis.ix, root)[0]
      ensures r.Ok? && r.value.Some? ==> ResolvesTo(redis.ix, cid, r.value.value.0, r.value.value.1)
      ensures r.Ok? && cid != "" && ListOf(redis.ix, cid) != [] ==> r.value.Some? && r.value.value.0 == cid
      ensures redis.failures == old(redis.failures) && cid != "" ==>
                && (r.Ok? && r.value.Some? <==> exists root :: StandsFor(redis.ix, cid, root))
                && forall root :: StandsFor(redis.ix, cid, root) ==>
                     r == Ok(Some((root, StringPair(redis.ix.sceneParcels[root][0],
                                                    if root != cid then cid
                                                    else if cid in redis.ix.rootScene then redis.ix.rootScene[cid] else ""))))
    {
      if cid != "" {
        ResolveInPlainTerms(redis.ix, cid);
      }
      hide ListOf;
      var ps := redis.GetSceneParcels(cid);
      if ps.Err? {
        return Err(ps.error);
      }
      var parcels := ps.value;
      var sceneCid, rootCid := "", "";
      if parcels == [] {
        var root := redis.GetRootCid(cid);
        if root == Err(Failure) {
          return Ok(None);
        }
        ReadSceneCid(redis.ix, cid, root);
        rootCid := if root.Ok? then root.value else "";
        var again := redis.GetSceneParcels(rootCid);
        if again.Err? {
          return Ok(None);
        }
        parcels := again.value;
        if parcels == [] {
          return Ok(None);
        }
        sceneCid := cid;
      }
      if sceneCid == "" {
        var read := redis.GetSceneCid(cid);
        ReadSceneCid(redis.ix, cid, read);
        sceneCid := if read.Ok? then read.value else "";
        rootCid := cid;
      }
      return Ok(Some((rootCid, StringPair(parcels[0], sceneCid))));
    }

    method CollectPairs(cids: seq<string>) returns (r: Result<map<string, StringPair>, RedisError>)
      modifies redis
      ensures redis.ix == old(redis.ix) && redis.failures >= old(redis.failures)
      ensures r.Err? ==> redis.failures > old(redis.failures)
      ensures redis.failures == old(redis.failures) ==> r == Ok(Collect(redis.ix, cids))
      ensures r.Ok? && "" !in cids ==>
                forall k :: k in r.value ==> ListOf(redis.ix, k) != [] && r.value[k].parcel == ListOf(redis.ix, k)[0]
      ensures r.Ok? ==> forall k :: k in r.value ==> exists c :: c in cids && ResolvesTo(redis.ix, c, k, r.value[k])
      ensures r.Ok? ==> forall c :: c in cids && c != "" && ListOf(redis.ix, c) != [] ==> c in r.value
    {
      hide Resolve, ListOf, ResolvesTo;
      var pairs: map<string, StringPair> := map[];
      var i := 0;
      while i < |cids|
        invariant 0 <= i <= |cids|
        invariant redis.ix == old(redis.ix) && redis.failures >= old(redis.failures)
        invariant redis.failures == old(redis.failures) ==> pairs == Collect(redis.ix, cids[..i])
        invariant "" !in cids ==>
                    forall k :: k in pairs ==> ListOf(redis.ix, k) != [] && pairs[k].parcel == ListOf(redis.ix, k)[0]
        invariant forall k :: k in pairs ==> exists c :: c in cids && ResolvesTo(redis.ix, c, k, pairs[k])
        invariant forall c :: c in cids[..i] && c != "" && ListOf(redis.ix, c) != [] ==> c in pairs
      {
        assert cids[..i + 1][..i] == cids[..i];
        assert cids[i] in cids;
        var resolved := ResolveCid(cids[i]);
        if resolved.Err? {
          return Err(resolved.error);
        }
        if resolved.value.Some? {
          var (root, pair) := resolved.value.value;
          pairs := pairs[root := pair];
        }
        i := i + 1;
      }
      assert cids[..i] == cids;
      return Ok(pairs);
    }

    /** GET /parcel_info, for the CIDs of its query. A failure can lose entries,
        their scene CIDs or their contents, but makes nothing up. */
    method GetInfo(cids: seq<string>) returns (r: Response<seq<SceneContent>>)
      modifies redis
      ensures redis.ix == old(redis.ix) && redis.failures >= old(redis.failures)
      ensures redis.failures == old(redis.failures) ==> InfoAnswer(redis.ix, Collect(redis.ix, cids), r)
      ensures r.Answered? || r == Crashed || (r == InternalError && redis.failures > old(redis.failures))
      ensures r.Answered? ==> SomeAnswers(redis.ix, cids, {}, r.body)
      ensures r == Crashed ==>
                exists c :: && c in cids && Resolve(redis.ix, c).Some?
                            && InfoIs(redis.ix, Resolve(redis.ix, c).value.1.parcel, Panicked)
      ensures redis.failures == old(redis.failures) && r.Answered? ==>
                AllAnswered(redis.ix, cids, r.body)
    {
      hide InfoIs, Collect, Resolve, AnswersFor, AllAnswered, SomeAnswers, AnswersCid, ListOf;
      var collected := CollectPairs(cids);
      if collected.Err? {
        return InternalError;
      }
      var pairs := collected.value;
      var ret: seq<SceneContent> := [];
      var rest := pairs.Keys;
      NoAnswersYet(redis.ix, pairs);
      while rest != {}
        invariant rest <= pairs.Keys
        invariant redis.ix == old(redis.ix) && redis.failures >= old(redis.failures)
        invariant redis.failures == old(redis.failures) ==> pairs == Collect(redis.ix, cids)
        invariant redis.failures == old(redis.failures) ==> AnswersFor(redis.ix, pairs, pairs.Keys - rest, ret)
        invariant SomeAnswers(redis.ix, cids, rest, ret)
        decreases rest
      {
        var root :| root in rest;
        ghost var c :| c in cids && ResolvesTo(redis.ix, c, root, pairs[root]);
        ghost var done := pairs.Keys - rest;
        assert pairs.Keys - (rest - {root}) == done + {root};
        OneFewer(redis.ix, cids, rest, ret, root);
        rest := rest - {root};
        var info := GetParcelInformation(pairs[root].parcel);
        if info == Panicked {
          return Crashed;
        }
        if info == Failed {
          if redis.failures == old(redis.failures) {
            NoAnswerFor(redis.ix, pairs, done, ret, root);
          }
          continue;
        }
        var e := SceneContent(root, pairs[root].sceneCid, if info.Found? then Some(info.content) else None);
        AnswersItsCid(redis.ix, c, pairs[root], e);
        OneMoreForCid(redis.ix, cids, rest, ret, c, e);
        if redis.failures == old(redis.failures) {
          OneMoreAnswer(redis.ix, pairs, done, ret, e);
        }
        ret := ret + [e];
      }
      assert pairs.Keys - rest == pairs.Keys;
      if redis.failures == old(redis.failures) {
        AllAreAnswered(redis.ix, cids, ret);
      }
      return Answered(ret);
    }

    /** GET /mappings, for parsed corners. A failure can lose contents, and ends the
        request once metadata cannot be read. */
    method GetMappings(x1: int, y1: int, x2: int, y2: int) returns (r: Response<seq<ParcelContent>>)
      modifies redis
      ensures redis.ix == old(redis.ix) && redis.failures >= old(redis.failures)
      ensures r == BadRequest <==> Area(x1, y1, x2, y2) > MAX_PARCELS
      ensures redis.failures == old(redis.failures) && r.Answered? ==> MappingsFor(redis.ix, Ids(x1, y1, x2, y2), r.body)
      ensures r == BadRequest <==> (Distance(x1, x2) + 1) * (Distance(y1, y2) + 1) > 200
      ensures r != InternalError
      ensures redis.failures == old(redis.failures) && r in {Unavailable, Crashed} ==>
                exists p :: p in Ids(x1, y1, x2, y2) && InfoIs(redis.ix, p, if r == Crashed then Panicked else Failed)
      ensures r.Answered? ==> SomeMappings(redis.ix, Ids(x1, y1, x2, y2), r.body)
      ensures r == Crashed ==> exists p :: p in Ids(x1, y1, x2, y2) && InfoIs(redis.ix, p, Panicked)
    {
      hide InfoIs, Area, Ids, Distance;
      var rect := RectToParcels(x1, y1, x2, y2, MAX_PARCELS);
      if rect.None? {
        return BadRequest;
      }
      var pids := rect.value;
      var contents: seq<ParcelContent> := [];
      var i := 0;
      while i < |pids|
        invariant 0 <= i <= |pids|
        invariant redis.ix == old(redis.ix) && redis.failures >= old(redis.failures)
        invariant redis.failures == old(redis.failures) ==> MappingsFor(redis.ix, pids[..i], contents)
        invariant SomeMappings(redis.ix, pids[..i], contents)
      {
        assert pids[..i + 1][..i] == pids[..i];
        assert pids[i] in pids;
        var info := GetParcelInformation(pids[i]);
        i := i + 1;
        match info
        case Failed => return Unavailable;
        case Panicked => return Crashed;
        case NoInfo =>
        case Found(content) => contents := contents + [content];
      }
      assert pids[..i] == pids;
      return Answered(contents);
    }
  }
}
