/** What an upload asks for and what it leaves, spelled out in terms of the request,
    the store and the maps of the index. */
module PlainTerms {
  import opened Results
  import opened ParcelId
  import opened SceneIndex
  import opened Metadata
  import opened Storage
  import opened Authorization
  import opened UploadRequest
  import opened UploadEffect
  import opened UploadService
  import opened UploadRuns
  import opened RootMetadata
  import opened CompletedUploads
  import opened RootScene

  // ---------- what is accepted ----------

  /** The manifest's files by place, and that each place has one CID. */
  lemma LeavesInPlainTerms(h: Hashing, manifest: seq<FileMetadata>, place: string, cid: string)
    ensures (place, cid) in ManifestLeaves(h, manifest) <==>
              exists m :: && m in manifest && (m.name == "" || m.name[|m.name| - 1] != '/')
                          && h.place(m.name) == place && m.cid == cid
  {
    if m :| m in manifest && (m.name == "" || m.name[|m.name| - 1] != '/') && h.place(m.name) == place && m.cid == cid {
      assert !IsDir(m.name) && (h.place(m.name), m.cid) in ManifestLeaves(h, manifest);
    }
    if (place, cid) in ManifestLeaves(h, manifest) {
      var m :| m in manifest && !IsDir(m.name) && (h.place(m.name), m.cid) == (place, cid);
    }
  }

  /** The bytes a file entry asks for hash to its CID, and its CID is well formed. */
  predicate FileIsSound(h: Hashing, r: Request, store: Files, m: FileMetadata) {
    && h.wellFormed(m.cid)
    && (m.cid in r.files || m.cid in store)
    && h.file(if m.cid in r.files then r.files[m.cid].data else store[m.cid]) == m.cid
  }

  predicate GrantedParcel(land: Land, key: string, p: string) {
    Parse(p).Some? && land(key, Parse(p).value.0, Parse(p).value.1) == Granted
  }

  /** Exactly the requests that are accepted, if no two files claim one place: they
      are signed by a key that may modify each of their parcels, of which there are
      some; their files have the bytes of their CIDs, are not too large together,
      and form the directory of the root, which is well formed. */
  lemma AcceptableIff(h: Hashing, limit: int, env: Outside, store: Files, r: Request)
    requires Unambiguous(h, r.manifest)
    ensures Acceptable(h, limit, env, store, r) <==>
              && (var m := r.metadata;
                  if |m.signature| <= 150 then env.recovers(m.rootCid + "." + Print(m.timestamp), m.signature, m.pubKey)
                  else env.contractAccepts(m.value + "." + Print(m.timestamp), m.signature, m.pubKey) == Some(true))
              && r.parcels != []
              && (forall p :: p in r.parcels ==> GrantedParcel(env.land, r.metadata.pubKey, p))
              && (forall m :: m in r.manifest && (m.name == "" || m.name[|m.name| - 1] != '/') ==> FileIsSound(h, r, store, m))
              && (exists m :: m in r.manifest && (m.name == "" || m.name[|m.name| - 1] != '/'))
              && Estimate(r.files, store, r.manifest) <= |r.parcels| * limit
              && h.wellFormed(r.metadata.rootCid)
              && h.dir(ManifestLeaves(h, r.manifest)) == r.metadata.rootCid
  {
    FilesAreValidIff(h, store, r);
    GrantedIff(env.land, r.metadata.pubKey, r.parcels);
    hide GrantedParcel, FileIsSound, AllGranted, Estimate, Unambiguous, Print;
    if EntriesValid(h, r.files, store, r.manifest) {
      LeavesOfTree(h, r.files, store, r.manifest);
      TreeIsChecked(h, r.files, store, r.manifest);
      ValidIsFetchable(h, store, r);
      hide TreeOf, Leaves, ManifestLeaves, EntriesValid, Fetchable;
      assert TreeOf(h, r.files, store, r.manifest) != map[] <==>
             exists m :: m in r.manifest && (m.name == "" || m.name[|m.name| - 1] != '/');
    }
  }

  lemma ValidIsFetchable(h: Hashing, store: Files, r: Request)
    requires EntriesValid(h, r.files, store, r.manifest)
    ensures Fetchable(r.files, store, r.manifest)
  {
    forall m | m in r.manifest && !IsDir(m.name)
      ensures Source(r.files, store, m.cid).Some?
    {
      assert EntryValid(h, r.files, store, m);
    }
  }

  lemma FilesAreValidIff(h: Hashing, store: Files, r: Request)
    ensures EntriesValid(h, r.files, store, r.manifest) <==>
              forall m :: m in r.manifest && (m.name == "" || m.name[|m.name| - 1] != '/') ==> FileIsSound(h, r, store, m)
  {
    forall m
      ensures EntryValid(h, r.files, store, m) <==> (m.name == "" || m.name[|m.name| - 1] != '/') ==> FileIsSound(h, r, store, m)
    {
      EntryIsChecked(h, r.files, store, m);
    }
    hide EntryValid, FileIsSound;
  }

  lemma GrantedIff(land: Land, key: string, parcels: seq<string>)
    ensures AllGranted(land, key, parcels) <==> forall p :: p in parcels ==> GrantedParcel(land, key, p)
  {
    hide Parse;
  }

  // ---------- what a successful upload leaves ----------

  lemma StoredFiles(st: State, r: Request, st': State)
    requires Committed(st, r, st')
    ensures forall c :: c in st'.files <==> c in st.files || c in r.files
    ensures forall c :: c in r.files ==> st'.files[c] == r.files[c].data
    ensures forall c :: c in st.files && c !in r.files ==> st'.files[c] == st.files[c]
  {
  }

  /** Each parcel maps to the root and is flagged; the root lists them, the last one
      first; the lists of all scenes they mapped to before are gone. */
  lemma StoredScene(st: State, r: Request, st': State)
    requires Committed(st, r, st') && r.parcels != []
    ensures var (root, n) := (r.metadata.rootCid, |r.parcels|);
            && (forall p :: p in r.parcels ==> p in st'.ix.parcelCid && st'.ix.parcelCid[p] == root && p in st'.ix.processed)
            && root in st'.ix.sceneParcels && n <= |st'.ix.sceneParcels[root]|
            && (forall i :: 0 <= i < n ==> st'.ix.sceneParcels[root][i] == r.parcels[n - 1 - i])
            && st'.ix.sceneParcels[root][n..]
               == if root !in st.ix.sceneParcels || exists p :: p in r.parcels && Owns(st.ix, root, p) then []
                  else st.ix.sceneParcels[root]
    ensures forall t :: t != r.metadata.rootCid ==>
              (t in st'.ix.sceneParcels <==> t in st.ix.sceneParcels && forall p :: p in r.parcels ==> !Owns(st.ix, t, p))
    ensures forall p :: p in st'.ix.processed <==> p in st.ix.processed || p in r.parcels
  {
    hide Committed, SetScene, IsDescribed, Owns;
    CommittedScenes(st, r, st');
    CompletedList(st.ix, r.metadata.rootCid, r.parcels);
    CompletedElsewhere(st.ix, r.metadata.rootCid, r.parcels);
  }

  /** Each name of the manifest is recorded with a CID the manifest has for it, each
      of its CIDs is marked as stored; nothing else is recorded or marked. */
  lemma StoredContent(st: State, r: Request, st': State)
    requires Committed(st, r, st')
    ensures forall m :: m in r.manifest ==>
              && m.cid in st'.ix.uploaded && r.metadata.rootCid in st'.ix.content
              && m.name in st'.ix.content[r.metadata.rootCid]
              && FileMetadata(st'.ix.content[r.metadata.rootCid][m.name], m.name) in r.manifest
    ensures forall c :: c in st'.ix.uploaded ==> c in st.ix.uploaded || exists m :: m in r.manifest && m.cid == c
    ensures st.ix.uploaded <= st'.ix.uploaded
  {
    hide SetScene, FieldsOf, SceneCidOf;
    var root, entries := r.metadata.rootCid, Entries(r.manifest);
    var mid :| Published(st.ix, root, entries, CidsIn(entries), mid) && st'.ix == Finish(Placed(mid, root, r.parcels), r);
    PlacingWithin(mid, r, st'.ix);
    hide Placed, Finish, Committed;
    forall m | m in r.manifest
      ensures m.cid in mid.uploaded && root in mid.content
      ensures m.name in mid.content[root] && FileMetadata(mid.content[root][m.name], m.name) in r.manifest
    {
      assert m in entries && m.name in NamesIn(entries);
    }
  }

  /** The metadata under the root is that of the request, under these names. */
  lemma StoredMetadata(st: State, r: Request, st': State)
    requires Committed(st, r, st')
    ensures r.metadata.rootCid in st'.ix.metadata
    ensures var fields, m := st'.ix.metadata[r.metadata.rootCid], r.metadata;
            && {"value ", "signature", "validity", "validityType", "sequence", "pubkey", "root_cid", "timestamp"} <= fields.Keys
            && fields["value "] == m.value && fields["signature"] == m.signature && fields["validity"] == m.validity
            && fields["validityType"] == Print(m.validityType) && fields["sequence"] == Print(m.sequence)
            && fields["pubkey"] == m.pubKey && fields["root_cid"] == m.rootCid && fields["timestamp"] == Print(m.timestamp)
  {
    StoredFields(st, r, st');
    FieldTexts(r.metadata);
    hide Committed, FieldsOf, Print;
  }

  lemma FieldTexts(m: Metadata)
    ensures FieldsOf(m).Keys
            == {"value ", "signature", "validity", "validityType", "sequence", "pubkey", "root_cid", "timestamp"}
    ensures var fields := FieldsOf(m);
            && fields["value "] == m.value && fields["signature"] == m.signature && fields["validity"] == m.validity
            && fields["validityType"] == Print(m.validityType) && fields["sequence"] == Print(m.sequence)
            && fields["pubkey"] == m.pubKey && fields["root_cid"] == m.rootCid && fields["timestamp"] == Print(m.timestamp)
  {
    hide Print;
  }

  lemma StoredFields(st: State, r: Request, st': State)
    requires Committed(st, r, st')
    ensures r.metadata.rootCid in st'.ix.metadata
    ensures var fields := st'.ix.metadata[r.metadata.rootCid];
            forall k :: k in FieldsOf(r.metadata) ==> k in fields && fields[k] == FieldsOf(r.metadata)[k]
  {
    hide Overwritten, Placed, Finish, FieldsOf, CidsIn, Entries, Saved;
    var root, entries := r.metadata.rootCid, Entries(r.manifest);
    var mid :| Published(st.ix, root, entries, CidsIn(entries), mid) && st'.ix == Finish(Placed(mid, root, r.parcels), r);
    FinishStores(Placed(mid, root, r.parcels), r);
  }

  lemma FinishStores(ix: Index, r: Request)
    ensures r.metadata.rootCid in Finish(ix, r).metadata
    ensures var fields := Finish(ix, r).metadata[r.metadata.rootCid];
            forall k :: k in FieldsOf(r.metadata) ==> k in fields && fields[k] == FieldsOf(r.metadata)[k]
  {
    hide SceneCidOf, FieldsOf;
  }

  /** The root and the CID of the first entry with scene.json in its name lead to
      each other. */
  lemma StoredLinks(st: State, r: Request, st': State, i: nat, a: string, b: string)
    requires Committed(st, r, st')
    requires i < |r.manifest| && r.manifest[i].name == a + "scene.json" + b && r.manifest[i].cid != r.metadata.rootCid
    requires forall j, c, d :: 0 <= j < i ==> r.manifest[j].name != c + "scene.json" + d
    ensures var (links, root, scene) := (st'.ix.rootScene, r.metadata.rootCid, r.manifest[i].cid);
            root in links && links[root] == scene && scene in links && links[scene] == root
    ensures forall k :: k != r.metadata.rootCid && k != r.manifest[i].cid ==>
              (k in st'.ix.rootScene <==> k in st.ix.rootScene)
              && (k in st.ix.rootScene ==> st'.ix.rootScene[k] == st.ix.rootScene[k])
  {
    CommittedLink(st, r, st');
    SceneCidInPlainTerms(r.manifest, i, a, b);
    hide Committed, SceneCidOf;
  }
}
