/** The readers' answers meet a simple specification because of what the writers
    keep. */
module Readers {
  import opened Results
  import opened Rectangle
  import opened SceneIndex
  import opened SceneInvariant
  import opened LastWriterWins
  import opened Metadata
  import opened UploadRequest
  import opened UploadEffect
  import opened RootMetadata
  import opened CompletedUploads
  import opened Mappings

  // ---------- /scenes ----------

  /** The scene has a parcel in the rectangle. */
  predicate Meets(pids: seq<string>, x1: int, y1: int, x2: int, y2: int) {
    Overlap(pids, Ids(x1, y1, x2, y2))
  }

  /** How often an entry belongs in the answer: as often as the parcel is in the
      layout of its root, if that is a live scene meeting the rectangle. */
  function Due(ix: Index, live: set<string>, layout: Layout, x1: int, y1: int, x2: int, y2: int, e: SceneEntry): nat {
    if e.rootCid in live && Meets(layout(e.rootCid), x1, y1, x2, y2) && e.sceneCid == SceneCidFor(ix, e.rootCid)
    then multiset(layout(e.rootCid))[e.parcelId] else 0
  }

  lemma {:induction false} ReverseKeepsCounts(s: seq<string>)
    ensures multiset(Reverse(s)) == multiset(s)
  {
    if s == [] {
    } else {
      ReverseKeepsCounts(s[1..]);
      assert s == [s[0]] + s[1..];
    }
  }

  lemma {:induction false} EntriesFromCounts(pids: seq<string>, root: string, sceneCid: string, e: SceneEntry)
    ensures multiset(EntriesFrom(pids, root, sceneCid))[e]
            == if e.rootCid == root && e.sceneCid == sceneCid then multiset(pids)[e.parcelId] else 0
  {
    if pids == [] {
    } else {
      var n := |pids| - 1;
      EntriesFromCounts(pids[..n], root, sceneCid, e);
      assert EntriesFrom(pids, root, sceneCid) == EntriesFrom(pids[..n], root, sceneCid) + [SceneEntry(pids[n], root, sceneCid)];
      assert pids == pids[..n] + [pids[n]];
    }
  }

  lemma {:induction false} FlattenCounts(ix: Index, order: seq<string>, e: SceneEntry)
    requires forall i, j :: 0 <= i < j < |order| ==> order[i] != order[j]
    ensures multiset(Flatten(ix, order))[e]
            == if e.rootCid in order && e.sceneCid == SceneCidFor(ix, e.rootCid)
               then multiset(ListOf(ix, e.rootCid))[e.parcelId] else 0
  {
    hide ListOf, SceneCidFor;
    if order == [] {
    } else {
      var n := |order| - 1;
      var root := order[n];
      FlattenCounts(ix, order[..n], e);
      EntriesFromCounts(ListOf(ix, root), root, SceneCidFor(ix, root), e);
      assert order == order[..n] + [root];
      assert root !in order[..n];
    }
  }

  lemma {:induction false} OrdersIsDistinct(order: seq<string>, s: set<string>)
    requires Orders(order, s)
    ensures forall i, j :: 0 <= i < j < |order| ==> order[i] != order[j]
    decreases |order|
  {
    if order == [] {
    } else {
      var n := |order| - 1;
      var rest := set c | c in order[..n];
      SetOfSeq(order[..n]);
      assert s == rest + {order[n]} by { assert order == order[..n] + [order[n]]; }
      assert order[n] !in rest;
      OrdersIsDistinct(order[..n], rest);
    }
  }

  lemma {:induction false} SetOfSeq(order: seq<string>)
    ensures |set c | c in order| <= |order|
  {
    if order == [] {
    } else {
      var n := |order| - 1;
      SetOfSeq(order[..n]);
      assert (set c | c in order) == (set c | c in order[..n]) + {order[n]} by { assert order == order[..n] + [order[n]]; }
    }
  }

  /** Of the roots GetScenes finds, those with a list are the live scenes that meet
      the rectangle; stale parcels lead only to roots without a list. */
  lemma RootsAreLiveScenes(ix: Index, live: set<string>, layout: Layout, x1: int, y1: int, x2: int, y2: int, root: string)
    requires Consistent(ix, live, layout)
    ensures root in live ==> (root in RootsIn(ix, Ids(x1, y1, x2, y2)) <==> Meets(layout(root), x1, y1, x2, y2))
    ensures root !in live ==> ListOf(ix, root) == []
  {
    hide Ids;
    var pids := Ids(x1, y1, x2, y2);
    if root in live {
      if p :| p in layout(root) && p in pids {
        assert p in ListOf(ix, root);
      }
      if root in RootsIn(ix, pids) {
        var p :| p in pids && CidOf(ix, p) != "" && p in ix.processed && CidOf(ix, p) == root;
        assert p in layout(root);
      }
    }
  }

  /** GET /scenes answers exactly the whole live scenes that meet the rectangle:
      every answer GetScenes can give without failures, whatever its order, has
      each entry as often as it is due. */
  lemma ScenesAreExact(ix: Index, live: set<string>, layout: Layout,
                       x1: int, y1: int, x2: int, y2: int, order: seq<string>, e: SceneEntry)
    requires Consistent(ix, live, layout) && Orders(order, RootsIn(ix, Ids(x1, y1, x2, y2)))
    ensures multiset(Flatten(ix, order))[e] == Due(ix, live, layout, x1, y1, x2, y2, e)
  {
    hide Ids, RootsIn, Meets, SceneCidFor;
    OrdersIsDistinct(order, RootsIn(ix, Ids(x1, y1, x2, y2)));
    FlattenCounts(ix, order, e);
    RootsAreLiveScenes(ix, live, layout, x1, y1, x2, y2, e.rootCid);
    assert e.rootCid in order <==> e.rootCid in RootsIn(ix, Ids(x1, y1, x2, y2)) by {
      assert e.rootCid in order <==> e.rootCid in set c | c in order;
    }
    if e.rootCid in live {
      ReverseKeepsCounts(layout(e.rootCid));
    }
  }

  /** The same for every run of completed uploads, in terms of its history. */
  lemma ScenesAfterRun(states: seq<State>, requests: seq<Request>, layout: Layout,
                       x1: int, y1: int, x2: int, y2: int, order: seq<string>, e: SceneEntry)
    requires IsCompletedRun(states, requests)
    requires Consistent(states[0].ix, {}, layout)
    requires forall r :: r in requests ==> r.metadata.rootCid != "" && r.parcels == layout(r.metadata.rootCid) && r.parcels != []
    requires Orders(order, RootsIn(states[|requests|].ix, Ids(x1, y1, x2, y2)))
    ensures var ix := states[|requests|].ix;
            multiset(Flatten(ix, order))[e] ==
            if && Survives(Roots(requests), e.rootCid, layout)
               && Meets(layout(e.rootCid), x1, y1, x2, y2)
               && e.sceneCid == SceneCidFor(ix, e.rootCid)
            then multiset(layout(e.rootCid))[e.parcelId] else 0
  {
    hide Committed, Consistent, Orders, Flatten, Survives, Meets, SceneCidFor, RootsIn, Ids;
    RunIsConsistent(states, requests, layout);
    LiveIffSurvives(Roots(requests), e.rootCid, layout);
    ScenesAreExact(states[|requests|].ix, LiveAfter(Roots(requests), layout), layout, x1, y1, x2, y2, order, e);
  }

  /** No answer puts a parcel under two roots. */
  lemma OneRootForEachParcel(ix: Index, order: seq<string>, roots: set<string>, e: SceneEntry, f: SceneEntry)
    requires Indexed(ix) && Orders(order, roots)
    requires e in Flatten(ix, order) && f in Flatten(ix, order) && e.parcelId == f.parcelId
    ensures e == f
  {
    OrdersIsDistinct(order, roots);
    FlattenCounts(ix, order, e);
    FlattenCounts(ix, order, f);
    assert e in multiset(Flatten(ix, order)) && f in multiset(Flatten(ix, order));
    assert e.parcelId in multiset(ListOf(ix, e.rootCid)) && f.parcelId in multiset(ListOf(ix, f.rootCid));
    assert ix.parcelCid[e.parcelId] == e.rootCid && ix.parcelCid[f.parcelId] == f.rootCid;
  }

  // ---------- /parcel_info ----------

  lemma {:induction false} CollectedHaveLists(ix: Index, cids: seq<string>)
    requires "" !in cids
    ensures forall k :: k in Collect(ix, cids) ==>
              ListOf(ix, k) != [] && Collect(ix, cids)[k].parcel == ListOf(ix, k)[0]
  {
    if cids == [] {
    } else {
      assert cids[|cids| - 1] in cids;
      CollectedHaveLists(ix, cids[..|cids| - 1]);
    }
  }

  /** A root is answered for exactly when one of the CIDs resolves to it; a root
      with a list resolves to itself. */
  lemma {:induction false} CollectedRoots(ix: Index, cids: seq<string>, k: string)
    ensures k in Collect(ix, cids) <==> exists c :: c in cids && Resolve(ix, c).Some? && Resolve(ix, c).value.0 == k
    ensures k in cids && ListOf(ix, k) != [] ==> k in Collect(ix, cids)
  {
    hide ListOf, SceneCidFor;
    if cids == [] {
    } else {
      var n := |cids| - 1;
      assert cids == cids[..n] + [cids[n]];
      CollectedRoots(ix, cids[..n], k);
    }
  }

  /** content is what is stored for root itself. */
  predicate IsContentOf(ix: Index, root: string, content: ParcelContent) {
    && content.rootCid == root
    && ListsHash(content.contents, HashOf(ix.content, root))
    && Typed(HashOf(ix.metadata, root)).Some?
    && "pubkey" in Typed(HashOf(ix.metadata, root)).value
    && Typed(HashOf(ix.metadata, root)).value["pubkey"] == Str(content.publisher)
  }

  lemma KeyInfo(ix: Index, k: string)
    requires ListsDescribed(ix) && ListOf(ix, k) != []
    ensures var p := ListOf(ix, k)[0];
            && !InfoIs(ix, p, Failed) && !InfoIs(ix, p, Panicked) && !InfoIs(ix, p, NoInfo)
            && forall c :: InfoIs(ix, p, Found(c)) ==> IsContentOf(ix, k, c)
  {
    hide Typed;
    assert ListOf(ix, k)[0] in ListOf(ix, k);
    assert IsDescribed(ix, k);
  }

  /** GET /parcel_info answers for each root with the content and metadata of that
      root, although it looks them up through a parcel. */
  lemma InfoAgreesWithKey(ix: Index, cids: seq<string>, r: Response<seq<SceneContent>>)
    requires ListsDescribed(ix) && "" !in cids
    requires InfoAnswer(ix, Collect(ix, cids), r)
    ensures r.Answered?
    ensures forall e :: e in r.body ==> e.content.Some? && IsContentOf(ix, e.rootCid, e.content.value)
    ensures forall k :: k in Collect(ix, cids) ==> exists e :: e in r.body && e.rootCid == k
  {
    hide InfoIs, Resolve, Collect, ListsDescribed, IsContentOf;
    var pairs := Collect(ix, cids);
    CollectedHaveLists(ix, cids);
    forall k | k in pairs
      ensures !InfoIs(ix, pairs[k].parcel, Failed) && !InfoIs(ix, pairs[k].parcel, Panicked)
      ensures !InfoIs(ix, pairs[k].parcel, NoInfo)
      ensures forall c :: InfoIs(ix, pairs[k].parcel, Found(c)) ==> IsContentOf(ix, k, c)
    {
      KeyInfo(ix, k);
    }
  }

  /** So after every run of completed uploads, from any index without lists and with
      no assumption on which parcels a root comes with. */
  lemma InfoAfterRun(states: seq<State>, requests: seq<Request>, cids: seq<string>, r: Response<seq<SceneContent>>)
    requires IsCompletedRun(states, requests) && states[0].ix.sceneParcels == map[] && "" !in cids
    requires InfoAnswer(states[|requests|].ix, Collect(states[|requests|].ix, cids), r)
    ensures var ix := states[|requests|].ix;
            && r.Answered?
            && (forall e :: e in r.body ==> e.content.Some? && IsContentOf(ix, e.rootCid, e.content.value))
            && (forall k :: k in Collect(ix, cids) ==> exists e :: e in r.body && e.rootCid == k)
  {
    hide Committed, ListsDescribed, InfoAnswer, Collect, IsContentOf;
    RunDescribesLists(states, requests);
    InfoAgreesWithKey(states[|requests|].ix, cids, r);
  }

  /** In any index, after interrupted uploads too, what is found for a root with a
      list is its own exactly if the first parcel of the list maps to it. */
  lemma InfoAgreesIff(ix: Index, root: string, content: ParcelContent)
    requires Named(ix) && ListOf(ix, root) != [] && InfoIs(ix, ListOf(ix, root)[0], Found(content))
    ensures IsContentOf(ix, root, content) <==> CidOf(ix, ListOf(ix, root)[0]) == root
  {
    hide Typed;
    assert NamesItself(ix, CidOf(ix, ListOf(ix, root)[0]));
  }

  /** And an interrupted upload can leave another scene's parcel there: its list is
      pushed reversed, so the first parcel listed is the last one repointed. */
  lemma InterruptedInfo() returns (ix: Index, ix': Index, content: ParcelContent)
    ensures Indexed(ix) && Named(ix) && Interrupted(ix, "s", ["0,0", "0,1"], ix')
    ensures Resolve(ix', "s") == Some(("s", StringPair("0,1", "")))
    ensures InfoIs(ix', "0,1", Found(content)) && content.rootCid == "t"
  {
    var ps, m := ["0,0", "0,1"], Metadata("", "", "", 0, 0, "key", "t", 0);
    hide FieldsOf, Typed;
    ix := EMPTY_INDEX.(parcelCid := map["0,1" := "t"], metadata := map["t" := FieldsOf(m)]);
    ix' := Partial(ix, "s", ps, Owners(ix, ps), true, 0);
    assert Boundary(ix, ps, Owners(ix, ps), true, 0);
    content := ParcelContent("0,1", [], "t", "key");
    OneNamed(ix, m);
    ListAtBoundary(ix, "s", ps, Owners(ix, ps), true, 0, "s");
    ReversePair("0,0", "0,1");
    InfoOfOther(ix', m, content);
  }

  lemma OneNamed(ix: Index, m: Metadata)
    requires ix.metadata == map[m.rootCid := FieldsOf(m)]
    ensures Named(ix)
  {
    TypedOfFields(m);
    hide FieldsOf;
    assert Typed(map[]) == Some(map[]);
    hide Typed;
  }

  lemma ReversePair(p: string, q: string)
    ensures Reverse([p, q]) == [q, p]
  {
    assert [p, q][1..] == [q] && Reverse([q]) == [q];
  }

  lemma InfoOfOther(ix: Index, m: Metadata, content: ParcelContent)
    requires CidOf(ix, content.parcelId) == m.rootCid != "" && HashOf(ix.metadata, m.rootCid) == FieldsOf(m)
    requires HashOf(ix.content, m.rootCid) == map[] && content.contents == []
    requires content.rootCid == m.rootCid && content.publisher == m.pubKey
    ensures InfoIs(ix, content.parcelId, Found(content))
  {
    TypedOfFields(m);
    hide Typed, FieldsOf;
  }

  /** And each answer of /parcel_info is for a root that an asked CID stands for. */
  lemma AnswersAreAskedFor(ix: Index, cids: seq<string>, body: seq<SceneContent>)
    requires SomeAnswers(ix, cids, {}, body) && "" !in cids
    ensures forall e :: e in body ==> exists c :: c in cids && StandsFor(ix, c, e.rootCid)
  {
    hide InfoIs, Resolve, StandsFor;
    forall e | e in body
      ensures exists c :: c in cids && StandsFor(ix, c, e.rootCid)
    {
      var c :| c in cids && AnswersCid(ix, c, e);
      ResolveInPlainTerms(ix, c);
    }
  }

  // ---------- /mappings ----------

  /** An answer of /mappings has the parcels in the order of the rectangle, each at
      most once, with what is stored for it. */
  lemma {:induction false} MappingsInOrder(ix: Index, pids: seq<string>, contents: seq<ParcelContent>)
    requires SomeMappings(ix, pids, contents)
    requires forall k, l :: 0 <= k < l < |pids| ==> Before(pids[k], pids[l])
    ensures forall i, j :: 0 <= i < j < |contents| ==> Before(contents[i].parcelId, contents[j].parcelId)
    ensures forall c :: c in contents ==> c.parcelId in pids && InfoIs(ix, c.parcelId, Found(c))
  {
    hide Before, Typed, InfoOf, HasText, ListsHash;
    if pids == [] {
    } else {
      var n := |pids| - 1;
      assert pids == pids[..n] + [pids[n]];
      if SomeMappings(ix, pids[..n], contents) {
        MappingsInOrder(ix, pids[..n], contents);
      } else {
        var before, last := contents[..|contents| - 1], contents[|contents| - 1];
        MappingsInOrder(ix, pids[..n], before);
        assert contents == before + [last] && last.parcelId == pids[n];
        forall i | 0 <= i < |before|
          ensures Before(before[i].parcelId, last.parcelId)
        {
          assert before[i] in before;
          var k :| 0 <= k < n && pids[..n][k] == before[i].parcelId;
          assert pids[k] == before[i].parcelId;
        }
      }
    }
  }

  /** Where every mapped root is described, a parcel has information exactly if it
      is mapped, and reading it neither fails nor panics. */
  lemma MappedIsAnswered(ix: Index, p: string)
    requires Informed(ix)
    ensures !InfoIs(ix, p, Failed) && !InfoIs(ix, p, Panicked)
    ensures InfoIs(ix, p, NoInfo) <==> p !in ix.parcelCid
  {
    hide Typed;
    assert p in ix.parcelCid ==> IsDescribed(ix, ix.parcelCid[p]);
  }

  // ---------- reading back an upload ----------

  /** After a completed upload each of its parcels reads back as that upload: its
      root, its publisher, and its manifest over what its root had before. */
  lemma UploadIsReadBack(st: State, r: Request, st': State, p: string, info: Info)
    requires Committed(st, r, st') && DistinctNames(r.manifest) && p in r.parcels
    requires InfoIs(st'.ix, p, info)
    ensures info.Found?
    ensures info.content.parcelId == p && info.content.rootCid == r.metadata.rootCid
    ensures info.content.publisher == r.metadata.pubKey
    ensures ListsHash(info.content.contents, HashOf(st.ix.content, r.metadata.rootCid) + NameMap(r.manifest))
  {
    hide Committed, Typed, FieldsOf, DistinctNames, NameMap, SetScene, ListsHash;
    CommittedScenes(st, r, st');
    CommittedMetadata(st, r, st');
    OutcomeIsDetermined(st, r, st');
    OutcomeContent(st, r);
    RepointedParcel(st.ix, r.metadata.rootCid, r.parcels, p);
    hide Outcome;
  }

  lemma RepointedParcel(ix: Index, root: string, parcels: seq<string>, p: string)
    requires p in parcels
    ensures p in SetScene(ix, root, parcels).parcelCid && SetScene(ix, root, parcels).parcelCid[p] == root
  {
    assert parcels[..|parcels|] == parcels;
  }
}
