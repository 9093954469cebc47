/** The map between root CIDs and scene CIDs, both of whose directions share one
    family of keys. */
module RootScene {
  import opened SceneIndex
  import opened UploadRequest
  import opened UploadEffect
  import opened CompletedUploads
  import opened Mappings
  import opened Readers

  datatype Link = Link(root: string, scene: string)

  function Save(m: map<string, string>, l: Link): map<string, string> {
    m[l.root := l.scene][l.scene := l.root]
  }

  function SaveAll(links: seq<Link>): map<string, string> {
    if links == [] then map[] else Save(SaveAll(links[..|links| - 1]), links[|links| - 1])
  }

  /** Each root always comes with the same scene, and no CID is both. */
  predicate Functional(links: seq<Link>) {
    && (forall i, j :: 0 <= i < |links| && 0 <= j < |links| && links[i].root == links[j].root ==>
          links[i].scene == links[j].scene)
    && (forall i, j :: 0 <= i < |links| && 0 <= j < |links| ==> links[i].root != links[j].scene)
  }

  /** links[i] is the last link with its scene. */
  predicate IsLast(links: seq<Link>, i: int) {
    0 <= i < |links| && forall j :: i < j < |links| ==> links[j].scene != links[i].scene
  }

  /** Every saved root leads to its scene. */
  lemma {:induction false} SceneOfRoot(links: seq<Link>, i: int)
    requires Functional(links) && 0 <= i < |links|
    ensures links[i].root in SaveAll(links) && SaveAll(links)[links[i].root] == links[i].scene
  {
    var n := |links| - 1;
    if i == n {
    } else {
      SceneOfRoot(links[..n], i);
    }
  }

  /** Every saved scene leads to the last root saved with it. */
  lemma {:induction false} RootOfScene(links: seq<Link>, i: int)
    requires Functional(links) && IsLast(links, i)
    ensures links[i].scene in SaveAll(links) && SaveAll(links)[links[i].scene] == links[i].root
  {
    var n := |links| - 1;
    if i == n {
    } else {
      assert IsLast(links[..n], i);
      RootOfScene(links[..n], i);
      assert links[i].scene != links[n].root;
    }
  }

  lemma {:induction false} LastLink(links: seq<Link>, scene: string) returns (i: int)
    requires exists l :: l in links && l.scene == scene
    ensures IsLast(links, i) && links[i].scene == scene
  {
    var n := |links| - 1;
    if links[n].scene == scene {
      return n;
    }
    assert links == links[..n] + [links[n]];
    i := LastLink(links[..n], scene);
    assert links[..n][i] == links[i];
  }

  /** Nothing else is recorded. */
  lemma {:induction false} OnlySaved(links: seq<Link>, c: string)
    requires c in SaveAll(links)
    ensures exists l :: l in links && (c == l.root || c == l.scene)
  {
    if links == [] {
    } else {
      var n := |links| - 1;
      assert links[n] in links;
      if c in SaveAll(links[..n]) {
        OnlySaved(links[..n], c);
        var l :| l in links[..n] && (c == l.root || c == l.scene);
        assert l in links;
      }
    }
  }

  /** Half an inverse: from a scene to its last root and back is the identity. */
  lemma SceneOfRootOfScene(links: seq<Link>, scene: string) returns (i: int)
    requires Functional(links) && exists l :: l in links && l.scene == scene
    ensures IsLast(links, i) && links[i].scene == scene
    ensures scene in SaveAll(links) && SaveAll(links)[scene] == links[i].root
    ensures links[i].root in SaveAll(links) && SaveAll(links)[links[i].root] == scene
  {
    hide Functional, SaveAll;
    i := LastLink(links, scene);
    RootOfScene(links, i);
    SceneOfRoot(links, i);
  }

  // ---------- in the index ----------

  function LinkOf(r: Request): Link {
    Link(r.metadata.rootCid, SceneCidOf(r.manifest))
  }

  function LinksOf(requests: seq<Request>): seq<Link> {
    seq(|requests|, i requires 0 <= i < |requests| => LinkOf(requests[i]))
  }

  lemma CommittedLink(st: State, r: Request, st': State)
    requires Committed(st, r, st')
    ensures st'.ix.rootScene == Save(st.ix.rootScene, LinkOf(r))
  {
    hide SceneCidOf, Overwritten, SetScene;
    var root, entries := r.metadata.rootCid, Entries(r.manifest);
    var mid :| Published(st.ix, root, entries, CidsIn(entries), mid) && st'.ix == Finish(Placed(mid, root, r.parcels), r);
    PlacedKeepsLinks(mid, root, r.parcels);
    hide Placed;
    FinishLinks(Placed(mid, root, r.parcels), r);
  }

  lemma PlacedKeepsLinks(ix: Index, root: string, parcels: seq<string>)
    ensures Placed(ix, root, parcels).rootScene == ix.rootScene
  {
  }

  lemma FinishLinks(ix: Index, r: Request)
    ensures Finish(ix, r).rootScene == Save(ix.rootScene, LinkOf(r))
  {
  }

  /** After a run of completed uploads the map holds the links of their requests,
      and a root with a list is the root of one of them. */
  lemma {:induction false} RunLinks(states: seq<State>, requests: seq<Request>)
    requires IsCompletedRun(states, requests)
    requires states[0].ix.rootScene == map[] && states[0].ix.sceneParcels == map[]
    ensures states[|requests|].ix.rootScene == SaveAll(LinksOf(requests))
    ensures forall k :: ListOf(states[|requests|].ix, k) != [] ==> exists l :: l in LinksOf(requests) && l.root == k
    decreases |requests|
  {
    hide Committed, LinkOf;
    if requests == [] {
    } else {
      var n := |requests| - 1;
      var st, r, st' := states[n], requests[n], states[n + 1];
      RunLinks(states[..n + 1], requests[..n]);
      assert LinksOf(requests)[..n] == LinksOf(requests[..n]);
      assert LinksOf(requests) == LinksOf(requests[..n]) + [LinkOf(r)];
      CommittedLink(st, r, st');
      CommittedScenes(st, r, st');
      forall k | ListOf(st'.ix, k) != []
        ensures exists l :: l in LinksOf(requests) && l.root == k
      {
        RootOfLink(r);
        if k == r.metadata.rootCid {
          assert LinkOf(r) in LinksOf(requests);
        } else {
          ListedBefore(st.ix, r, st'.ix, k);
          var l :| l in LinksOf(requests[..n]) && l.root == k;
          assert l in LinksOf(requests);
        }
      }
    }
  }

  lemma RootOfLink(r: Request)
    ensures LinkOf(r).root == r.metadata.rootCid
  {
  }

  lemma ListedBefore(ix: Index, r: Request, ix': Index, k: string)
    requires ix'.sceneParcels == SetScene(ix, r.metadata.rootCid, r.parcels).sceneParcels
    requires ListOf(ix', k) != [] && k != r.metadata.rootCid
    ensures ListOf(ix, k) != []
  {
  }

  /** A CID resolves to a root with the scene CID that the root was saved with. */
  lemma ResolvedSceneCid(ix: Index, links: seq<Link>, cid: string)
    requires Functional(links) && ix.rootScene == SaveAll(links)
    requires forall k :: ListOf(ix, k) != [] ==> exists l :: l in links && l.root == k
    requires (forall l :: l in links ==> l.root != "") && cid != "" && Resolve(ix, cid).Some?
    ensures var (root, pair) := Resolve(ix, cid).value; Link(root, pair.sceneCid) in links
  {
    var (root, pair) := Resolve(ix, cid).value;
    var k :| k in links && k.root == root;
    var i :| 0 <= i < |links| && links[i] == k;
    SceneOfRoot(links, i);
    if ListOf(ix, cid) == [] {
      OnlySaved(links, cid);
      var l :| l in links && (cid == l.root || cid == l.scene);
      if cid == l.scene {
        var j := SceneOfRootOfScene(links, cid);
      } else {
        var j :| 0 <= j < |links| && links[j] == l;
        SceneOfRoot(links, j);
        assert false;
      }
    }
  }

  /** GetInfo reports for each root the scene CID the root was saved with, whichever
      of the two CIDs is asked for, among whatever others, in whatever order. */
  lemma {:induction false} OneSceneCidForEachRoot(ix: Index, links: seq<Link>, cids: seq<string>)
    requires Functional(links) && ix.rootScene == SaveAll(links)
    requires forall k :: ListOf(ix, k) != [] ==> exists l :: l in links && l.root == k
    requires (forall l :: l in links ==> l.root != "") && "" !in cids
    ensures forall k :: k in Collect(ix, cids) ==> Link(k, Collect(ix, cids)[k].sceneCid) in links
  {
    hide Functional, Resolve;
    if cids == [] {
    } else {
      var n := |cids| - 1;
      assert cids[n] in cids;
      OneSceneCidForEachRoot(ix, links, cids[..n]);
      if Resolve(ix, cids[n]).Some? {
        ResolvedSceneCid(ix, links, cids[n]);
      }
    }
  }

  lemma OneSceneForRoot(links: seq<Link>, root: string, scene: string, scene': string)
    requires Functional(links) && Link(root, scene) in links && Link(root, scene') in links
    ensures scene == scene'
  {
  }

  /** So the same CIDs in another order, or repeated, get the same answers. */
  lemma AskedInAnyOrder(ix: Index, links: seq<Link>, cids: seq<string>, others: seq<string>)
    requires Functional(links) && ix.rootScene == SaveAll(links)
    requires forall k :: ListOf(ix, k) != [] ==> exists l :: l in links && l.root == k
    requires (forall l :: l in links ==> l.root != "") && "" !in cids
    requires forall c :: c in cids <==> c in others
    ensures Collect(ix, cids) == Collect(ix, others)
  {
    hide Functional, Resolve, Collect, ListOf, SaveAll;
    OneSceneCidForEachRoot(ix, links, cids);
    OneSceneCidForEachRoot(ix, links, others);
    CollectedHaveLists(ix, cids);
    CollectedHaveLists(ix, others);
    forall k
      ensures k in Collect(ix, cids) <==> k in Collect(ix, others)
    {
      CollectedRoots(ix, cids, k);
      CollectedRoots(ix, others, k);
    }
    forall k | k in Collect(ix, cids)
      ensures Collect(ix, cids)[k] == Collect(ix, others)[k]
    {
      OneSceneForRoot(links, k, Collect(ix, cids)[k].sceneCid, Collect(ix, others)[k].sceneCid);
    }
  }

  /** The scene CID of the last root saved with it stands for that root, if it has a
      list; asking for it gets the answer that asking for the root gets. */
  lemma AskedByScene(ix: Index, links: seq<Link>, i: int)
    requires Functional(links) && ix.rootScene == SaveAll(links) && IsLast(links, i)
    requires forall k :: ListOf(ix, k) != [] ==> exists l :: l in links && l.root == k
    requires ListOf(ix, links[i].root) != [] && links[i].root != "" && links[i].scene != ""
    ensures StandsFor(ix, links[i].scene, links[i].root) && StandsFor(ix, links[i].root, links[i].root)
    ensures Collect(ix, [links[i].scene]) == Collect(ix, [links[i].root])
            == map[links[i].root := StringPair(ListOf(ix, links[i].root)[0], links[i].scene)]
  {
    var root, scene := links[i].root, links[i].scene;
    RootOfScene(links, i);
    SceneOfRoot(links, i);
    assert ListOf(ix, scene) == [];
    ResolveInPlainTerms(ix, scene);
    ResolveInPlainTerms(ix, root);
    hide Functional, SaveAll, Resolve;
    assert [scene][..0] == [] && [root][..0] == [];
    assert Collect(ix, []) == map[];
  }

  /** So after every run of completed uploads in which each root comes with one
      scene and no CID is both. */
  lemma AskedBySceneAfterRun(states: seq<State>, requests: seq<Request>, i: int)
    requires IsCompletedRun(states, requests)
    requires states[0].ix.rootScene == map[] && states[0].ix.sceneParcels == map[]
    requires Functional(LinksOf(requests)) && IsLast(LinksOf(requests), i)
    requires LinksOf(requests)[i].root != "" && LinksOf(requests)[i].scene != ""
    requires ListOf(states[|requests|].ix, LinksOf(requests)[i].root) != []
    ensures var (ix, link) := (states[|requests|].ix, LinksOf(requests)[i]);
            && StandsFor(ix, link.scene, link.root)
            && Collect(ix, [link.scene]) == Collect(ix, [link.root])
               == map[link.root := StringPair(ListOf(ix, link.root)[0], link.scene)]
  {
    hide Committed, Functional, LinksOf, Collect, StandsFor, ListOf, SaveAll;
    RunLinks(states, requests);
    AskedByScene(states[|requests|].ix, LinksOf(requests), i);
  }
}
