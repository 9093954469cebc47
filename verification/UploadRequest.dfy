/** A parsed upload request, and the file tree its manifest describes. */
module UploadRequest {
  import opened Results
  import opened Metadata
  import opened Storage

  datatype FileMetadata = FileMetadata(cid: string, name: string)

  datatype FileHeader = FileHeader(filename: string, contentType: string, data: Bytes)

  datatype Request = Request(
    metadata: Metadata,
    manifest: seq<FileMetadata>,
    files: map<string, FileHeader>, // the uploaded files, by the CID they claim
    parcels: seq<string>)

  datatype UploadError = InvalidArgument | RequiredValue | Unauthorized | Unexpected | Unclassified

  /** Content hashing, left uninterpreted. A directory CID is a function of the
      places and CIDs of the files below it; place is where a manifest name lands. */
  datatype Hashing = Hashing(
    file: Bytes -> string,
    dir: set<(string, string)> -> string,
    place: string -> string,
    wellFormed: string -> bool)

  predicate IsDir(name: string) {
    |name| > 0 && name[|name| - 1] == '/'
  }

  // ---------- sources and sizes ----------

  /** Where the bytes of a CID come from: the request first, then the store. */
  function Source(files: map<string, FileHeader>, store: Files, cid: string): Option<Bytes> {
    if cid in files then Some(files[cid].data)
    else if cid in store then Some(store[cid])
    else None
  }

  predicate Fetchable(files: map<string, FileHeader>, store: Files, manifest: seq<FileMetadata>) {
    forall m :: m in manifest && !IsDir(m.name) ==> Source(files, store, m.cid).Some?
  }

  function EntrySize(files: map<string, FileHeader>, store: Files, m: FileMetadata): nat {
    var source := Source(files, store, m.cid);
    if IsDir(m.name) || source.None? then 0 else |source.value|
  }

  function Estimate(files: map<string, FileHeader>, store: Files, manifest: seq<FileMetadata>): nat {
    if manifest == [] then 0
    else
      var n := |manifest| - 1;
      Estimate(files, store, manifest[..n]) + EntrySize(files, store, manifest[n])
  }

  lemma NoEntries(files: map<string, FileHeader>, store: Files, manifest: seq<FileMetadata>)
    ensures Estimate(files, store, manifest[..0]) == 0 && Fetchable(files, store, manifest[..0])
  {
  }

  /** One more entry of the manifest. */
  lemma EstimateNext(files: map<string, FileHeader>, store: Files, manifest: seq<FileMetadata>, i: nat)
    requires i < |manifest|
    ensures Estimate(files, store, manifest[..i + 1])
            == Estimate(files, store, manifest[..i]) + EntrySize(files, store, manifest[i])
    ensures Fetchable(files, store, manifest[..i + 1]) <==>
              Fetchable(files, store, manifest[..i]) && (IsDir(manifest[i].name) || Source(files, store, manifest[i].cid).Some?)
    ensures Fetchable(files, store, manifest) ==> IsDir(manifest[i].name) || Source(files, store, manifest[i].cid).Some?
  {
    hide IsDir, Source;
    assert manifest[..i + 1] == manifest[..i] + [manifest[i]];
    assert manifest[..i + 1][..i] == manifest[..i];
    assert manifest[i] in manifest;
  }

  // ---------- the consolidated tree ----------

  type Tree = map<string, Bytes>

  /** The files written below the temporary root, later entries over earlier ones. */
  function TreeOf(h: Hashing, files: map<string, FileHeader>, store: Files, manifest: seq<FileMetadata>): Tree {
    if manifest == [] then map[]
    else
      var n := |manifest| - 1;
      var tree := TreeOf(h, files, store, manifest[..n]);
      var m := manifest[n];
      var source := Source(files, store, m.cid);
      if IsDir(m.name) || source.None? then tree else tree[h.place(m.name) := source.value]
  }

  /** A directory, as the places and CIDs of the files below it. */
  type Directory = set<(string, string)>

  function Leaves(h: Hashing, tree: Tree): Directory {
    set p | p in tree :: (p, h.file(tree[p]))
  }

  predicate EntryValid(h: Hashing, files: map<string, FileHeader>, store: Files, m: FileMetadata) {
    var source := Source(files, store, m.cid);
    IsDir(m.name) || (h.wellFormed(m.cid) && source.Some? && h.file(source.value) == m.cid)
  }

  predicate EntriesValid(h: Hashing, files: map<string, FileHeader>, store: Files, manifest: seq<FileMetadata>) {
    forall m :: m in manifest ==> EntryValid(h, files, store, m)
  }

  /** One more entry of the manifest. */
  lemma TreeNext(h: Hashing, files: map<string, FileHeader>, store: Files, manifest: seq<FileMetadata>, i: nat)
    requires i < |manifest|
    ensures var tree, m := TreeOf(h, files, store, manifest[..i]), manifest[i];
            TreeOf(h, files, store, manifest[..i + 1])
            == if IsDir(m.name) || Source(files, store, m.cid).None? then tree
               else tree[h.place(m.name) := Source(files, store, m.cid).value]
    ensures EntriesValid(h, files, store, manifest[..i + 1]) <==>
              EntriesValid(h, files, store, manifest[..i]) && EntryValid(h, files, store, manifest[i])
    ensures EntriesValid(h, files, store, manifest) ==> EntryValid(h, files, store, manifest[i])
  {
    hide IsDir, Source, EntryValid;
    assert manifest[..i + 1] == manifest[..i] + [manifest[i]];
    assert manifest[..i + 1][..i] == manifest[..i];
    assert manifest[i] in manifest;
  }

  predicate DistinctPlaces(h: Hashing, manifest: seq<FileMetadata>) {
    forall i, j :: 0 <= i < j < |manifest| && !IsDir(manifest[i].name) && !IsDir(manifest[j].name) ==>
      h.place(manifest[i].name) != h.place(manifest[j].name)
  }

  /** File entries that land in one place claim one CID. */
  predicate Unambiguous(h: Hashing, manifest: seq<FileMetadata>) {
    forall m, e :: m in manifest && e in manifest && !IsDir(m.name) && !IsDir(e.name) && h.place(m.name) == h.place(e.name) ==>
      m.cid == e.cid
  }

  function ManifestLeaves(h: Hashing, manifest: seq<FileMetadata>): Directory {
    set m | m in manifest && !IsDir(m.name) :: (h.place(m.name), m.cid)
  }

  // ---------- what they mean, entry by entry ----------

  /** Each entry adds the size of its bytes in the request, or else in the store,
      unless its name ends in a slash. */
  lemma EstimateAppend(files: map<string, FileHeader>, store: Files, manifest: seq<FileMetadata>, m: FileMetadata)
    ensures Estimate(files, store, []) == 0
    ensures Estimate(files, store, manifest + [m])
            == Estimate(files, store, manifest)
               + if m.name != "" && m.name[|m.name| - 1] == '/' then 0
                 else if m.cid in files then |files[m.cid].data|
                 else if m.cid in store then |store[m.cid]| else 0
  {
    EstimateNext(files, store, manifest + [m], |manifest|);
    assert (manifest + [m])[..|manifest| + 1] == manifest + [m] && (manifest + [m])[..|manifest|] == manifest;
    hide Estimate;
  }

  /** A name that ends in a slash leaves the tree as it was. */
  lemma DirectoryIsSkipped(h: Hashing, files: map<string, FileHeader>, store: Files, manifest: seq<FileMetadata>, m: FileMetadata)
    requires m.name != "" && m.name[|m.name| - 1] == '/'
    ensures TreeOf(h, files, store, manifest + [m]) == TreeOf(h, files, store, manifest)
    ensures EntriesValid(h, files, store, manifest + [m]) <==> EntriesValid(h, files, store, manifest)
  {
    TreeNext(h, files, store, manifest + [m], |manifest|);
    assert (manifest + [m])[..|manifest| + 1] == manifest + [m] && (manifest + [m])[..|manifest|] == manifest;
    hide TreeOf, EntriesValid;
  }

  /** The bytes at a place are those of the last file that lands there. */
  lemma {:induction false} TreeAt(h: Hashing, files: map<string, FileHeader>, store: Files, manifest: seq<FileMetadata>, i: nat)
    requires i < |manifest| && (manifest[i].name == "" || manifest[i].name[|manifest[i].name| - 1] != '/')
    requires manifest[i].cid in files || manifest[i].cid in store
    requires forall j :: i < j < |manifest| && (manifest[j].name == "" || manifest[j].name[|manifest[j].name| - 1] != '/') ==>
               h.place(manifest[j].name) != h.place(manifest[i].name)
    ensures h.place(manifest[i].name) in TreeOf(h, files, store, manifest)
    ensures TreeOf(h, files, store, manifest)[h.place(manifest[i].name)]
            == if manifest[i].cid in files then files[manifest[i].cid].data else store[manifest[i].cid]
    decreases |manifest|
  {
    var n := |manifest| - 1;
    if i == n {
    } else {
      TreeAt(h, files, store, manifest[..n], i);
    }
  }

  /** A valid entry in plain terms. */
  lemma EntryIsChecked(h: Hashing, files: map<string, FileHeader>, store: Files, m: FileMetadata)
    ensures EntryValid(h, files, store, m) <==>
              (m.name == "" || m.name[|m.name| - 1] != '/') ==>
                && h.wellFormed(m.cid)
                && (m.cid in files ==> h.file(files[m.cid].data) == m.cid)
                && (m.cid !in files ==> m.cid in store && h.file(store[m.cid]) == m.cid)
  {
  }

  // ---------- the tree and its size ----------

  ghost function TotalSize(tree: Tree): nat {
    if tree == map[] then 0
    else var p :| p in tree; |tree[p]| + TotalSize(tree - {p})
  }

  lemma {:induction false} TotalSizeRemove(tree: Tree, p: string)
    requires p in tree
    ensures TotalSize(tree) == |tree[p]| + TotalSize(tree - {p})
    decreases |tree|
  {
    var q :| q in tree && TotalSize(tree) == |tree[q]| + TotalSize(tree - {q});
    if q == p {
    } else {
      TotalSizeRemove(tree - {q}, p);
      TotalSizeRemove(tree - {p}, q);
      assert tree - {p} - {q} == tree - {q} - {p};
    }
  }

  lemma TotalSizeUpdate(tree: Tree, p: string, data: Bytes)
    ensures TotalSize(tree[p := data]) == |data| + TotalSize(tree - {p})
    ensures TotalSize(tree - {p}) <= TotalSize(tree)
    ensures p !in tree ==> tree - {p} == tree
  {
    TotalSizeRemove(tree[p := data], p);
    assert tree[p := data] - {p} == tree - {p};
    if p in tree {
      TotalSizeRemove(tree, p);
    } else {
      assert tree - {p} == tree;
    }
  }

  lemma {:induction false} TreePlaces(h: Hashing, files: map<string, FileHeader>, store: Files, manifest: seq<FileMetadata>)
    ensures forall p :: p in TreeOf(h, files, store, manifest) ==>
              exists i :: 0 <= i < |manifest| && !IsDir(manifest[i].name) && h.place(manifest[i].name) == p
  {
    if manifest == [] {
    } else {
      TreePlaces(h, files, store, manifest[..|manifest| - 1]);
    }
  }

  lemma FreshPlace(h: Hashing, files: map<string, FileHeader>, store: Files, manifest: seq<FileMetadata>)
    requires manifest != [] && DistinctPlaces(h, manifest) && !IsDir(manifest[|manifest| - 1].name)
    ensures h.place(manifest[|manifest| - 1].name) !in TreeOf(h, files, store, manifest[..|manifest| - 1])
  {
    TreePlaces(h, files, store, manifest[..|manifest| - 1]);
  }

  /** The estimate bounds the bytes of the tree, and is exact for distinct places. */
  lemma {:induction false} EstimateBoundsTree(
      h: Hashing, files: map<string, FileHeader>, store: Files, manifest: seq<FileMetadata>)
    ensures TotalSize(TreeOf(h, files, store, manifest)) <= Estimate(files, store, manifest)
    ensures DistinctPlaces(h, manifest) ==>
              TotalSize(TreeOf(h, files, store, manifest)) == Estimate(files, store, manifest)
  {
    if manifest == [] {
    } else {
      var n := |manifest| - 1;
      var tree, m := TreeOf(h, files, store, manifest[..n]), manifest[n];
      var source := Source(files, store, m.cid);
      EstimateBoundsTree(h, files, store, manifest[..n]);
      if !IsDir(m.name) && source.Some? {
        var p := h.place(m.name);
        TotalSizeUpdate(tree, p, source.value);
        if DistinctPlaces(h, manifest) {
          FreshPlace(h, files, store, manifest);
        }
      }
    }
  }

  // ---------- the leaves of the tree ----------

  lemma LeavesUpdate(h: Hashing, tree: Tree, p: string, data: Bytes)
    ensures Leaves(h, tree[p := data]) <= Leaves(h, tree) + {(p, h.file(data))}
  {
    var tree' := tree[p := data];
    forall leaf | leaf in Leaves(h, tree')
      ensures leaf in Leaves(h, tree) + {(p, h.file(data))}
    {
      var q :| q in tree' && leaf == (q, h.file(tree'[q]));
      assert q != p ==> q in tree && tree[q] == tree'[q];
    }
  }

  /** The tree has a leaf for every file of a valid manifest, and no others. */
  lemma {:induction false} LeavesWithin(h: Hashing, files: map<string, FileHeader>, store: Files, manifest: seq<FileMetadata>)
    requires EntriesValid(h, files, store, manifest)
    ensures var tree := TreeOf(h, files, store, manifest);
            && Leaves(h, tree) <= ManifestLeaves(h, manifest)
            && forall m :: m in manifest && !IsDir(m.name) ==> h.place(m.name) in tree
  {
    if manifest == [] {
    } else {
      var n := |manifest| - 1;
      var before, m := manifest[..n], manifest[n];
      assert manifest == before + [m];
      LeavesWithin(h, files, store, before);
      assert EntryValid(h, files, store, m);
      assert ManifestLeaves(h, before) <= ManifestLeaves(h, manifest);
      if !IsDir(m.name) {
        LeavesUpdate(h, TreeOf(h, files, store, before), h.place(m.name), Source(files, store, m.cid).value);
        assert (h.place(m.name), m.cid) in ManifestLeaves(h, manifest);
      }
    }
  }

  /** A valid tree in plain terms: every file is in its place with bytes that hash
      to its CID, and every place has a file with the hash of its bytes. */
  lemma TreeIsChecked(h: Hashing, files: map<string, FileHeader>, store: Files, manifest: seq<FileMetadata>)
    requires EntriesValid(h, files, store, manifest)
    ensures forall m :: m in manifest && (m.name == "" || m.name[|m.name| - 1] != '/') ==>
              && h.wellFormed(m.cid) && h.place(m.name) in TreeOf(h, files, store, manifest)
              && (m.cid in files ==> h.file(files[m.cid].data) == m.cid)
              && (m.cid !in files ==> m.cid in store && h.file(store[m.cid]) == m.cid)
    ensures forall p :: p in TreeOf(h, files, store, manifest) ==>
              exists m :: && m in manifest && (m.name == "" || m.name[|m.name| - 1] != '/') && h.place(m.name) == p
                          && h.file(TreeOf(h, files, store, manifest)[p]) == m.cid
  {
    var tree := TreeOf(h, files, store, manifest);
    LeavesWithin(h, files, store, manifest);
    hide TreeOf, EntryValid;
    forall m | m in manifest && (m.name == "" || m.name[|m.name| - 1] != '/')
      ensures !IsDir(m.name) && EntryValid(h, files, store, m)
    {
    }
    forall m
      ensures EntryValid(h, files, store, m) <==>
                (m.name == "" || m.name[|m.name| - 1] != '/') ==>
                  && h.wellFormed(m.cid)
                  && (m.cid in files ==> h.file(files[m.cid].data) == m.cid)
                  && (m.cid !in files ==> m.cid in store && h.file(store[m.cid]) == m.cid)
    {
      EntryIsChecked(h, files, store, m);
    }
    forall p | p in tree
      ensures exists m :: && m in manifest && (m.name == "" || m.name[|m.name| - 1] != '/') && h.place(m.name) == p
                          && h.file(tree[p]) == m.cid
    {
      assert (p, h.file(tree[p])) in Leaves(h, tree);
      var m :| m in manifest && !IsDir(m.name) && (h.place(m.name), m.cid) == (p, h.file(tree[p]));
    }
  }

  /** The leaves of a valid tree are the places and CIDs of the manifest's files
      exactly if no place is claimed with two CIDs. */
  lemma LeavesOfTree(h: Hashing, files: map<string, FileHeader>, store: Files, manifest: seq<FileMetadata>)
    requires EntriesValid(h, files, store, manifest)
    ensures Leaves(h, TreeOf(h, files, store, manifest)) == ManifestLeaves(h, manifest) <==> Unambiguous(h, manifest)
  {
    var tree := TreeOf(h, files, store, manifest);
    LeavesWithin(h, files, store, manifest);
    hide EntriesValid, TreeOf;
    if Unambiguous(h, manifest) {
      forall m | m in manifest && !IsDir(m.name)
        ensures (h.place(m.name), m.cid) in Leaves(h, tree)
      {
        var p := h.place(m.name);
        assert (p, h.file(tree[p])) in Leaves(h, tree);
        var e :| e in manifest && !IsDir(e.name) && (h.place(e.name), e.cid) == (p, h.file(tree[p]));
      }
    }
    if Leaves(h, tree) == ManifestLeaves(h, manifest) {
      forall m, e | m in manifest && e in manifest && !IsDir(m.name) && !IsDir(e.name) && h.place(m.name) == h.place(e.name)
        ensures m.cid == e.cid
      {
        assert (h.place(m.name), m.cid) in Leaves(h, tree) && (h.place(e.name), e.cid) in Leaves(h, tree);
      }
    }
  }
}
