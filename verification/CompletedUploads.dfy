/** What runs of completed uploads keep, so that the readers can join the maps. */
module CompletedUploads {
  import opened SceneIndex
  import opened SceneInvariant
  import opened LastWriterWins
  import opened Metadata
  import opened UploadRequest
  import opened UploadEffect
  import opened RootMetadata

  /** The scene maps and metadata after a completed upload. */
  lemma CommittedScenes(st: State, r: Request, st': State)
    requires Committed(st, r, st')
    ensures st'.ix.parcelCid == SetScene(st.ix, r.metadata.rootCid, r.parcels).parcelCid
    ensures st'.ix.sceneParcels == SetScene(st.ix, r.metadata.rootCid, r.parcels).sceneParcels
    ensures st'.ix.processed == st.ix.processed + set p | p in r.parcels
    ensures forall q :: q != r.metadata.rootCid ==> HashOf(st'.ix.metadata, q) == HashOf(st.ix.metadata, q)
    ensures IsDescribed(st'.ix, r.metadata.rootCid)
  {
    hide Overwritten, Placed, Finish, IsDescribed;
    var root, entries := r.metadata.rootCid, Entries(r.manifest);
    var mid :| Published(st.ix, root, entries, CidsIn(entries), mid) && st'.ix == Finish(Placed(mid, root, r.parcels), r);
    DescribedAfter(Placed(mid, root, r.parcels), r);
    PlacedScenes(st.ix, mid, root, r.parcels);
    FinishKeepsScenes(Placed(mid, root, r.parcels), r);
  }

  /** The metadata left under the root of a completed upload is its own. */
  lemma CommittedMetadata(st: State, r: Request, st': State)
    requires Committed(st, r, st')
    ensures var typed := Typed(HashOf(st'.ix.metadata, r.metadata.rootCid));
            typed.Some? && forall k :: k in ValuesOf(r.metadata) ==> k in typed.value && typed.value[k] == ValuesOf(r.metadata)[k]
  {
    hide Overwritten, Placed, Finish, Typed, ValuesOf, FieldsOf;
    var root, entries := r.metadata.rootCid, Entries(r.manifest);
    var mid :| Published(st.ix, root, entries, CidsIn(entries), mid) && st'.ix == Finish(Placed(mid, root, r.parcels), r);
    FinishMetadata(Placed(mid, root, r.parcels), r);
    OverriddenFields(HashOf(Placed(mid, root, r.parcels).metadata, root), r.metadata);
  }

  lemma PlacedScenes(ix: Index, mid: Index, root: string, parcels: seq<string>)
    requires mid.parcelCid == ix.parcelCid && mid.sceneParcels == ix.sceneParcels
    ensures var placed, whole := Placed(mid, root, parcels), SetScene(ix, root, parcels);
            && placed.parcelCid == whole.parcelCid && placed.sceneParcels == whole.sceneParcels
            && placed.processed == mid.processed + (set p | p in parcels) && placed.metadata == mid.metadata
  {
    assert Owners(mid, parcels) == Owners(ix, parcels);
  }

  lemma FinishKeepsScenes(ix: Index, r: Request)
    ensures var done := Finish(ix, r);
            && done.parcelCid == ix.parcelCid && done.sceneParcels == ix.sceneParcels && done.processed == ix.processed
            && forall q :: q != r.metadata.rootCid ==> HashOf(done.metadata, q) == HashOf(ix.metadata, q)
  {
    hide FieldsOf, SceneCidOf;
  }

  /** Lists agree with parcels, and every root a parcel maps to is described. */
  ghost predicate Informed(ix: Index) {
    && Indexed(ix)
    && forall p :: p in ix.parcelCid ==> IsDescribed(ix, ix.parcelCid[p])
  }

  lemma InformedKept(st: State, r: Request, st': State)
    requires Informed(st.ix) && Committed(st, r, st')
    ensures Informed(st'.ix)
  {
    hide Committed, SetScene, Typed;
    var root := r.metadata.rootCid;
    var whole := SetScene(st.ix, root, r.parcels);
    CommittedScenes(st, r, st');
    IndexedKept(st.ix, root, r.parcels);
    assert forall s :: ListOf(st'.ix, s) == ListOf(whole, s);
    forall p | p in st'.ix.parcelCid
      ensures IsDescribed(st'.ix, st'.ix.parcelCid[p])
    {
      PlacedParcel(st.ix, root, r.parcels, p);
    }
  }

  /** Lists agree with parcels, and every root with a list is described. */
  ghost predicate ListsDescribed(ix: Index) {
    Indexed(ix) && forall s :: ListOf(ix, s) != [] ==> IsDescribed(ix, s)
  }

  lemma ListsDescribedKept(st: State, r: Request, st': State)
    requires ListsDescribed(st.ix) && Committed(st, r, st')
    ensures ListsDescribed(st'.ix)
  {
    hide Committed, Typed, Reverse;
    var root := r.metadata.rootCid;
    var whole := SetScene(st.ix, root, r.parcels);
    CommittedScenes(st, r, st');
    IndexedKept(st.ix, root, r.parcels);
    forall s
      ensures ListOf(st'.ix, s) == ListOf(whole, s)
      ensures ListOf(whole, s) != [] && s != root ==> ListOf(st.ix, s) != []
    {
      ListAtBoundary(st.ix, root, r.parcels, Owners(st.ix, r.parcels), true, |r.parcels|, s);
    }
  }

  lemma PlacedParcel(ix: Index, root: string, parcels: seq<string>, p: string)
    requires p in SetScene(ix, root, parcels).parcelCid
    ensures SetScene(ix, root, parcels).parcelCid[p] == root
            || (p in ix.parcelCid && SetScene(ix, root, parcels).parcelCid[p] == ix.parcelCid[p])
  {
  }

  /** Under content addressing: the index refines the live scenes, whose parcels
      are all flagged as processed. */
  ghost predicate Consistent(ix: Index, live: set<string>, layout: Layout) {
    && Refines(ix, live, layout)
    && (forall s, p :: s in live && p in layout(s) ==> p in ix.processed)
  }

  lemma ConsistentKept(st: State, r: Request, st': State, live: set<string>, layout: Layout)
    requires Consistent(st.ix, live, layout) && Committed(st, r, st')
    requires r.metadata.rootCid != "" && r.parcels == layout(r.metadata.rootCid) && r.parcels != []
    ensures Consistent(st'.ix, Admit(live, r.metadata.rootCid, layout), layout)
  {
    hide Committed, SetScene;
    var root := r.metadata.rootCid;
    CommittedScenes(st, r, st');
    AdmitRefines(st.ix, live, layout, root);
    SameRefines(SetScene(st.ix, root, r.parcels), st'.ix, Admit(live, root, layout), layout);
    hide Refines;
    forall s, p | s in Admit(live, root, layout) && p in layout(s)
      ensures p in st'.ix.processed
    {
      assert s == root || s in live;
    }
  }

  lemma SameRefines(ix: Index, ix': Index, live: set<string>, layout: Layout)
    requires Refines(ix, live, layout)
    requires ix'.parcelCid == ix.parcelCid && ix'.sceneParcels == ix.sceneParcels
    ensures Refines(ix', live, layout)
  {
    hide Reverse;
    forall s
      ensures ListOf(ix', s) == ListOf(ix, s)
    {
    }
  }

  // ---------- runs ----------

  ghost predicate IsCompletedRun(states: seq<State>, requests: seq<Request>) {
    && |states| == |requests| + 1
    && forall i :: 0 <= i < |requests| ==> Committed(states[i], requests[i], states[i + 1])
  }

  function Roots(requests: seq<Request>): seq<string> {
    seq(|requests|, i requires 0 <= i < |requests| => requests[i].metadata.rootCid)
  }

  /** Every run of completed uploads, of which a root CID fixes the parcels, keeps
      the index consistent with the live scenes of its history. */
  lemma {:induction false} RunIsConsistent(states: seq<State>, requests: seq<Request>, layout: Layout)
    requires IsCompletedRun(states, requests)
    requires Consistent(states[0].ix, {}, layout)
    requires forall r :: r in requests ==> r.metadata.rootCid != "" && r.parcels == layout(r.metadata.rootCid) && r.parcels != []
    ensures Consistent(states[|requests|].ix, LiveAfter(Roots(requests), layout), layout)
    decreases |requests|
  {
    hide Committed, Consistent;
    if requests == [] {
    } else {
      var n := |requests| - 1;
      RunIsConsistent(states[..n + 1], requests[..n], layout);
      assert Roots(requests)[..n] == Roots(requests[..n]);
      ConsistentKept(states[n], requests[n], states[n + 1], LiveAfter(Roots(requests[..n]), layout), layout);
    }
  }

  /** Without content addressing: if every root a parcel maps to was described, it
      stays so. */
  lemma {:induction false} RunIsInformed(states: seq<State>, requests: seq<Request>)
    requires IsCompletedRun(states, requests) && Informed(states[0].ix)
    ensures Informed(states[|requests|].ix)
    decreases |requests|
  {
    hide Committed, Informed;
    if requests == [] {
    } else {
      var n := |requests| - 1;
      RunIsInformed(states[..n + 1], requests[..n]);
      InformedKept(states[n], requests[n], states[n + 1]);
    }
  }

  /** The same from any index without lists, for the roots that have a list. */
  lemma {:induction false} RunDescribesLists(states: seq<State>, requests: seq<Request>)
    requires IsCompletedRun(states, requests) && states[0].ix.sceneParcels == map[]
    ensures ListsDescribed(states[|requests|].ix)
    decreases |requests|
  {
    hide Committed, IsDescribed;
    if requests == [] {
    } else {
      var n := |requests| - 1;
      RunDescribesLists(states[..n + 1], requests[..n]);
      hide ListsDescribed;
      ListsDescribedKept(states[n], requests[n], states[n + 1]);
    }
  }
}
