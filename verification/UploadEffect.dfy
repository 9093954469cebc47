/** What an accepted upload writes: its complete effect on storage and index, and
    the states in which an upload that fails half way can leave them. */
module UploadEffect {
  import opened SceneIndex
  import opened Metadata
  import opened Storage
  import opened UploadRequest

  datatype State = State(files: Files, ix: Index)

  // ---------- storing the files ----------

  function Saved(store: Files, files: map<string, FileHeader>, done: set<string>): Files {
    store + map cid | cid in files && cid in done :: files[cid].data
  }

  // ---------- publishing the manifest under its root ----------

  function Entries(manifest: seq<FileMetadata>): set<FileMetadata> {
    set m | m in manifest
  }

  function NamesIn(entries: set<FileMetadata>): set<string> {
    set e | e in entries :: e.name
  }

  function CidsIn(entries: set<FileMetadata>): set<string> {
    set e | e in entries :: e.cid
  }

  /** hash is prior with the entries written over it in some order: only an entry
      can have changed a name, and a named file has the CID of one of its entries. */
  ghost predicate Overwritten(prior: Fields, entries: set<FileMetadata>, hash: Fields) {
    && hash.Keys == prior.Keys + NamesIn(entries)
    && (forall n :: n in prior && n !in NamesIn(entries) ==> hash[n] == prior[n])
    && (forall n :: n in NamesIn(entries) ==> FileMetadata(hash[n], n) in entries)
  }

  /** The index with a content hash for root and more known CIDs; the hash is only
      there once an entry was written. */
  function Publish(ix: Index, root: string, entries: set<FileMetadata>, hash: Fields, cids: set<string>): Index {
    ix.(content := if entries == {} then ix.content else ix.content[root := hash],
        uploaded := ix.uploaded + cids)
  }

  ghost predicate PublishedAs(ix: Index, root: string, entries: set<FileMetadata>, hash: Fields, cids: set<string>, ix': Index) {
    Overwritten(HashOf(ix.content, root), entries, hash) && ix' == Publish(ix, root, entries, hash, cids)
  }

  /** One CID after the other: all entries of a known CID are written, and at most
      one other CID has entries written. */
  predicate InTurn(entries: set<FileMetadata>, written: set<FileMetadata>, known: set<string>) {
    && written <= entries
    && (forall e :: e in entries && e.cid in known ==> e in written)
    && (forall e, f :: e in written && f in written && e.cid !in known && f.cid !in known ==> e.cid == f.cid)
  }

  ghost predicate Publishing(ix: Index, root: string, entries: set<FileMetadata>, cids: set<string>, ix': Index) {
    exists written, hash, known ::
      InTurn(entries, written, known) && known <= cids && PublishedAs(ix, root, written, hash, known, ix')
  }

  ghost predicate Published(ix: Index, root: string, entries: set<FileMetadata>, cids: set<string>, ix': Index) {
    exists hash :: PublishedAs(ix, root, entries, hash, cids, ix')
  }

  lemma PublishNothing(ix: Index, root: string)
    ensures PublishedAs(ix, root, {}, HashOf(ix.content, root), {}, ix)
  {
  }

  lemma OverwriteOne(prior: Fields, entries: set<FileMetadata>, hash: Fields, e: FileMetadata)
    requires Overwritten(prior, entries, hash)
    ensures Overwritten(prior, entries + {e}, hash[e.name := e.cid])
  {
    assert NamesIn(entries + {e}) == NamesIn(entries) + {e.name};
  }

  lemma PublishName(ix: Index, root: string, entries: set<FileMetadata>, hash: Fields, cids: set<string>,
                    ix': Index, e: FileMetadata)
    requires PublishedAs(ix, root, entries, hash, cids, ix')
    ensures PublishedAs(ix, root, entries + {e}, hash[e.name := e.cid], cids, Step(ix', SetContent(root, e.name, e.cid)))
  {
    OverwriteOne(HashOf(ix.content, root), entries, hash, e);
    if entries == {} {
      assert hash == HashOf(ix.content, root);
    }
    assert HashOf(ix'.content, root) == hash;
    hide Overwritten;
    assert ix'.content[root := hash[e.name := e.cid]] == ix.content[root := hash[e.name := e.cid]];
    assert e in entries + {e};
  }

  lemma MarkStored(ix: Index, root: string, entries: set<FileMetadata>, hash: Fields, cids: set<string>, ix': Index, cid: string)
    requires PublishedAs(ix, root, entries, hash, cids, ix')
    ensures PublishedAs(ix, root, entries, hash, cids + {cid}, Step(ix', AddUploaded(cid)))
  {
    assert ix.uploaded + cids + {cid} == ix.uploaded + (cids + {cid});
  }

  // ---------- placing the scene on its parcels ----------

  function Flagged(ix: Index, pids: set<string>): Index {
    ix.(processed := ix.processed + pids)
  }

  function Placed(ix: Index, root: string, parcels: seq<string>): Index {
    Flagged(SetScene(ix, root, parcels), set p | p in parcels)
  }

  ghost predicate Placing(ix: Index, root: string, parcels: seq<string>, ix': Index) {
    || Interrupted(ix, root, parcels, ix')
    || exists some: set<string> :: (forall p :: p in some ==> p in parcels) && ix' == Flagged(SetScene(ix, root, parcels), some)
  }

  // ---------- metadata and scene CID ----------

  predicate Contains(s: string, t: string) {
    exists i :: 0 <= i <= |s| && t <= s[i..]
  }

  /** Wherever the text occurs. */
  lemma ContainsMiddle(a: string, t: string, b: string)
    ensures Contains(a + t + b, t)
  {
    assert (a + t + b)[|a|..] == t + b;
  }

  lemma ContainsIff(s: string, t: string)
    ensures Contains(s, t) <==> exists a, b :: s == a + t + b
  {
    if Contains(s, t) {
      var i :| 0 <= i <= |s| && t <= s[i..];
      assert s == s[..i] + t + s[i + |t|..];
    }
    if a, b :| s == a + t + b {
      ContainsMiddle(a, t, b);
    }
  }

  /** The CID of the first manifest entry whose name contains scene.json. */
  function SceneCidOf(manifest: seq<FileMetadata>): string {
    if manifest == [] then ""
    else if Contains(manifest[0].name, "scene.json") then manifest[0].cid
    else SceneCidOf(manifest[1..])
  }

  /** It is the first such entry, and empty only if there is none. */
  lemma {:induction false} SceneCidIsFirst(manifest: seq<FileMetadata>)
    ensures || (exists i :: 0 <= i < |manifest| && Contains(manifest[i].name, "scene.json")
                  && SceneCidOf(manifest) == manifest[i].cid
                  && forall j :: 0 <= j < i ==> !Contains(manifest[j].name, "scene.json"))
            || (SceneCidOf(manifest) == "" && forall m :: m in manifest ==> !Contains(m.name, "scene.json"))
  {
    hide Contains;
    if manifest == [] {
    } else if !Contains(manifest[0].name, "scene.json") {
      var rest := manifest[1..];
      SceneCidIsFirst(rest);
      assert manifest == [manifest[0]] + rest;
      if i :| 0 <= i < |rest| && Contains(rest[i].name, "scene.json") && SceneCidOf(rest) == rest[i].cid
              && forall j :: 0 <= j < i ==> !Contains(rest[j].name, "scene.json") {
        assert manifest[i + 1] == rest[i];
        assert forall j :: 0 < j < i + 1 ==> manifest[j] == rest[j - 1];
      }
    }
  }

  /** In terms of the names: the entry i decides if it is the first with scene.json
      somewhere in its name. */
  lemma {:induction false} SceneCidInPlainTerms(manifest: seq<FileMetadata>, i: nat, a: string, b: string)
    requires i < |manifest| && manifest[i].name == a + "scene.json" + b
    requires forall j, c, d :: 0 <= j < i ==> manifest[j].name != c + "scene.json" + d
    ensures SceneCidOf(manifest) == manifest[i].cid
    decreases i
  {
    ContainsMiddle(a, "scene.json", b);
    ContainsIff(manifest[0].name, "scene.json");
    hide Contains;
    if i == 0 {
    } else {
      var rest := manifest[1..];
      assert forall j :: 0 <= j < i - 1 ==> rest[j] == manifest[j + 1];
      SceneCidInPlainTerms(rest, i - 1, a, b);
    }
  }

  function Described(ix: Index, r: Request): Index {
    Step(ix, SetMetadata(r.metadata.rootCid, FieldsOf(r.metadata)))
  }

  function Finish(ix: Index, r: Request): Index {
    LinkScene(Described(ix, r), r.metadata.rootCid, SceneCidOf(r.manifest))
  }

  predicate Finishing(ix: Index, r: Request, ix': Index) {
    || ix' == ix
    || ix' == Described(ix, r)
    || ix' == Step(Described(ix, r), SetRootScene(r.metadata.rootCid, SceneCidOf(r.manifest)))
    || ix' == Finish(ix, r)
  }

  // ---------- a whole upload ----------

  /** The effect of an upload that succeeds. */
  ghost predicate Committed(st: State, r: Request, st': State) {
    exists mid ::
      && Published(st.ix, r.metadata.rootCid, Entries(r.manifest), CidsIn(Entries(r.manifest)), mid)
      && st' == State(Saved(st.files, r.files, r.files.Keys),
                      Finish(Placed(mid, r.metadata.rootCid, r.parcels), r))
  }

  /** The states an accepted upload goes through: it saves files first, then
      publishes, then places the scene, then describes it. */
  ghost predicate Underway(st: State, r: Request, st': State) {
    || (st'.ix == st.ix && exists done :: done <= r.files.Keys && st'.files == Saved(st.files, r.files, done))
    || (st'.files == Saved(st.files, r.files, r.files.Keys) && Indexing(st.ix, r, st'.ix))
  }

  ghost predicate Indexing(ix: Index, r: Request, ix': Index) {
    || Publishing(ix, r.metadata.rootCid, Entries(r.manifest), CidsIn(Entries(r.manifest)), ix')
    || exists mid ::
         && Published(ix, r.metadata.rootCid, Entries(r.manifest), CidsIn(Entries(r.manifest)), mid)
         && (|| Placing(mid, r.metadata.rootCid, r.parcels, ix')
             || Finishing(Placed(mid, r.metadata.rootCid, r.parcels), r, ix'))
  }

  // ---------- the manifest grouped by CID ----------

  /** The entries of some CIDs in a grouping. */
  function EntriesOf(paths: map<string, seq<string>>, cids: set<string>): set<FileMetadata> {
    set c, n | c in cids && c in paths && n in paths[c] :: FileMetadata(c, n)
  }

  /** With the entries of the CIDs done and some of one more CID, it is in turn. */
  lemma PartInTurn(paths: map<string, seq<string>>, done: set<string>, cid: string, written: set<FileMetadata>)
    requires EntriesOf(paths, done) <= written <= EntriesOf(paths, done + {cid}) && done + {cid} <= paths.Keys
    ensures InTurn(EntriesOf(paths, paths.Keys), written, done)
  {
  }

  lemma WholeInTurn(paths: map<string, seq<string>>, done: set<string>)
    requires done <= paths.Keys
    ensures InTurn(EntriesOf(paths, paths.Keys), EntriesOf(paths, done), done)
  {
  }

  lemma EntriesOfGrouping(paths: map<string, seq<string>>, manifest: seq<FileMetadata>)
    requires paths.Keys == CidsIn(Entries(manifest))
    requires forall cid :: cid in paths ==> paths[cid] == NamesFor(manifest, cid)
    ensures EntriesOf(paths, paths.Keys) == Entries(manifest)
  {
    forall e: FileMetadata
      ensures e in EntriesOf(paths, paths.Keys) <==> e in manifest
    {
      InNamesFor(manifest, e);
      if e in manifest {
        assert e in Entries(manifest);
      }
    }
  }

  function NamesFor(manifest: seq<FileMetadata>, cid: string): seq<string> {
    if manifest == [] then []
    else
      var n := |manifest| - 1;
      NamesFor(manifest[..n], cid) + if manifest[n].cid == cid then [manifest[n].name] else []
  }

  /** Grouping conserves the entries: a name is listed for a CID as often as the
      manifest has that entry. */
  lemma {:induction false} GroupingConserves(manifest: seq<FileMetadata>, e: FileMetadata)
    ensures multiset(NamesFor(manifest, e.cid))[e.name] == multiset(manifest)[e]
  {
    if manifest == [] {
    } else {
      var n := |manifest| - 1;
      assert manifest == manifest[..n] + [manifest[n]];
      GroupingConserves(manifest[..n], e);
    }
  }

  /** And keeps their order: an entry comes after as many names as earlier entries
      have its CID. */
  lemma {:induction false} NamesInOrder(manifest: seq<FileMetadata>, i: nat)
    requires i < |manifest|
    ensures var names, k := NamesFor(manifest, manifest[i].cid), |NamesFor(manifest[..i], manifest[i].cid)|;
            k < |names| && names[k] == manifest[i].name && names[..k] == NamesFor(manifest[..i], manifest[i].cid)
    decreases |manifest|
  {
    var n := |manifest| - 1;
    if i == n {
    } else {
      NamesInOrder(manifest[..n], i);
      assert manifest[..n][..i] == manifest[..i];
    }
  }

  lemma {:induction false} InNamesFor(manifest: seq<FileMetadata>, e: FileMetadata)
    ensures e.name in NamesFor(manifest, e.cid) <==> e in manifest
  {
    GroupingConserves(manifest, e);
    assert e.name in NamesFor(manifest, e.cid) <==> e.name in multiset(NamesFor(manifest, e.cid));
    assert e in manifest <==> e in multiset(manifest);
  }

  lemma {:induction false} NotNamed(manifest: seq<FileMetadata>, cid: string)
    requires cid !in CidsIn(Entries(manifest))
    ensures NamesFor(manifest, cid) == []
  {
    if manifest == [] {
    } else {
      var n := |manifest| - 1;
      assert manifest[n] in Entries(manifest);
      assert Entries(manifest[..n]) <= Entries(manifest);
      NotNamed(manifest[..n], cid);
    }
  }

  predicate DistinctNames(manifest: seq<FileMetadata>) {
    forall i, j :: 0 <= i < j < |manifest| ==> manifest[i].name != manifest[j].name
  }

  function NameMap(manifest: seq<FileMetadata>): Fields {
    if manifest == [] then map[]
    else var n := |manifest| - 1; NameMap(manifest[..n])[manifest[n].name := manifest[n].cid]
  }

  lemma {:induction false} NameMapIs(manifest: seq<FileMetadata>)
    requires DistinctNames(manifest)
    ensures NameMap(manifest).Keys == NamesIn(Entries(manifest))
    ensures forall m :: m in manifest ==> NameMap(manifest)[m.name] == m.cid
  {
    if manifest == [] {
    } else {
      var n := |manifest| - 1;
      assert manifest == manifest[..n] + [manifest[n]];
      NameMapIs(manifest[..n]);
      assert Entries(manifest) == Entries(manifest[..n]) + {manifest[n]};
      assert NamesIn(Entries(manifest)) == NamesIn(Entries(manifest[..n])) + {manifest[n].name};
    }
  }

  /** With distinct names the order in which entries are written does not matter:
      the hash is the old one overridden by the manifest. */
  lemma OverwrittenByDistinctNames(prior: Fields, manifest: seq<FileMetadata>, hash: Fields)
    requires DistinctNames(manifest) && Overwritten(prior, Entries(manifest), hash)
    ensures hash == prior + NameMap(manifest)
  {
    NameMapIs(manifest);
    forall n | n in hash
      ensures hash[n] == (prior + NameMap(manifest))[n]
    {
      if n in NamesIn(Entries(manifest)) {
        assert FileMetadata(hash[n], n) in manifest;
      }
    }
  }

  /** The outcome of a successful upload whose manifest has distinct names. */
  function Outcome(st: State, r: Request): State {
    var root, entries := r.metadata.rootCid, Entries(r.manifest);
    var hash := HashOf(st.ix.content, root) + NameMap(r.manifest);
    var published := Publish(st.ix, root, entries, hash, CidsIn(entries));
    State(Saved(st.files, r.files, r.files.Keys), Finish(Placed(published, root, r.parcels), r))
  }

  /** So with distinct names a successful upload has one outcome, whatever orders
      its loops took. */
  lemma OutcomeIsDetermined(st: State, r: Request, st': State)
    requires DistinctNames(r.manifest) && Committed(st, r, st')
    ensures st' == Outcome(st, r)
  {
    hide Placed, Finish, Saved, Overwritten, NameMap, NamesIn, DistinctNames, CidsIn, Entries;
    var root, entries := r.metadata.rootCid, Entries(r.manifest);
    var mid :| Published(st.ix, root, entries, CidsIn(entries), mid) && st'.ix == Finish(Placed(mid, root, r.parcels), r);
    var hash :| PublishedAs(st.ix, root, entries, hash, CidsIn(entries), mid);
    OverwrittenByDistinctNames(HashOf(st.ix.content, root), r.manifest, hash);
  }

  /** The old hash overridden by a manifest of distinct names is what writing the
      entries leaves. */
  lemma OverriddenIsOverwritten(prior: Fields, manifest: seq<FileMetadata>)
    requires DistinctNames(manifest)
    ensures Overwritten(prior, Entries(manifest), prior + NameMap(manifest))
  {
    NameMapIs(manifest);
    hide DistinctNames, NameMap;
    forall n | n in NamesIn(Entries(manifest))
      ensures FileMetadata((prior + NameMap(manifest))[n], n) in Entries(manifest)
    {
      var m :| m in Entries(manifest) && m.name == n;
      assert m in manifest;
    }
  }

  /** And that outcome is one a successful upload can have. */
  lemma OutcomeIsReached(st: State, r: Request)
    requires DistinctNames(r.manifest)
    ensures Committed(st, r, Outcome(st, r))
  {
    var root, entries := r.metadata.rootCid, Entries(r.manifest);
    var prior := HashOf(st.ix.content, root);
    OverriddenIsOverwritten(prior, r.manifest);
    hide Placed, Finish, Saved, Overwritten, NameMap, NamesIn, DistinctNames, CidsIn, Entries, Publish;
    var mid := Publish(st.ix, root, entries, prior + NameMap(r.manifest), CidsIn(entries));
    assert PublishedAs(st.ix, root, entries, prior + NameMap(r.manifest), CidsIn(entries), mid);
    assert Published(st.ix, root, entries, CidsIn(entries), mid);
  }

  lemma PlacedKeepsContent(ix: Index, root: string, parcels: seq<string>)
    ensures Placed(ix, root, parcels).content == ix.content
  {
  }

  lemma OutcomeContent(st: State, r: Request)
    ensures HashOf(Outcome(st, r).ix.content, r.metadata.rootCid)
            == HashOf(st.ix.content, r.metadata.rootCid) + NameMap(r.manifest)
  {
    var root, entries := r.metadata.rootCid, Entries(r.manifest);
    var hash := HashOf(st.ix.content, root) + NameMap(r.manifest);
    var published := Publish(st.ix, root, entries, hash, CidsIn(entries));
    PlacedKeepsContent(published, root, r.parcels);
    FinishKeepsContent(Placed(published, root, r.parcels), r);
    hide Placed, Finish, CidsIn, Saved;
    if r.manifest == [] {
      assert NameMap(r.manifest) == map[];
    } else {
      assert r.manifest[0] in entries;
    }
  }

  lemma FinishKeepsContent(ix: Index, r: Request)
    ensures Finish(ix, r).content == ix.content
  {
  }
}
