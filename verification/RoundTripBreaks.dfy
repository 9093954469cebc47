/** Two acceptable uploads after which a stored root no longer verifies. */
module RoundTripBreaks {
  import opened Results
  import opened ParcelId
  import opened SceneIndex
  import opened Metadata
  import opened Storage
  import opened Authorization
  import opened UploadRequest
  import opened UploadEffect
  import opened UploadService
  import opened UploadRuns
  import opened RoundTrip

  /** Three file CIDs, three directory CIDs, and paths cleaned of a leading dot. */
  const HASHING := Hashing(
    data => if data == [1] then "a" else if data == [2] then "b" else "c",
    dir => if dir == {("f", "a")} then "Q1" else if dir == {("g", "b")} then "Q2" else "Q3",
    name => if "./" <= name then name[2..] else name,
    cid => true)

  const EVERYTHING_GRANTED := Outside(
    (message, signature, key) => true, (message, signature, key) => None, (key, x, y) => Granted)

  const LIMIT := 10

  function Upload(root: string, manifest: seq<FileMetadata>, files: map<string, FileHeader>): Request {
    Request(Metadata("", "", "", 0, 0, "key", root, 0), manifest, files, [Id(0, 0)])
  }

  /** Root Q1 holds one file f with the CID a. */
  const BEFORE := State(map["a" := [1]], EMPTY_INDEX.(content := map["Q1" := map["f" := "a"]]))

  lemma FileCids()
    ensures HASHING.file([1]) == "a" && HASHING.file([2]) == "b"
  {
    var one: Bytes, two: Bytes := [1], [2];
    assert one[0] != two[0];
  }

  lemma BeforeVerifies()
    ensures StoreSound(HASHING, BEFORE.files) && Verifies(HASHING, BEFORE, "Q1")
  {
    FileCids();
    assert FileNames(BEFORE.ix, "Q1") == {"f"};
    assert Rebuilt(HASHING, BEFORE, "Q1") == {("f", "a")};
  }

  lemma LandGranted()
    ensures AllGranted(EVERYTHING_GRANTED.land, "key", [Id(0, 0)])
  {
    ParseOfId(0, 0);
    hide Id, Parse;
  }

  /** The tree and the estimate of a manifest with two entries. */
  lemma TwoEntries(files: map<string, FileHeader>, store: Files, first: FileMetadata, second: FileMetadata)
    requires !IsDir(first.name) && Source(files, store, first.cid).Some?
    ensures var one := map[HASHING.place(first.name) := Source(files, store, first.cid).value];
            TreeOf(HASHING, files, store, [first, second])
            == if IsDir(second.name) || Source(files, store, second.cid).None? then one
               else one[HASHING.place(second.name) := Source(files, store, second.cid).value]
    ensures Estimate(files, store, [first, second]) == EntrySize(files, store, first) + EntrySize(files, store, second)
  {
    hide EntrySize, Source;
    var two := [first, second];
    assert two[..1] == [first] && [first][..0] == [];
    assert Estimate(files, store, []) == 0;
    assert Estimate(files, store, [first]) == EntrySize(files, store, first);
    assert TreeOf(HASHING, files, store, []) == map[];
  }

  lemma OneLeaf(place: string, data: Bytes)
    ensures Leaves(HASHING, map[place := data]) == {(place, HASHING.file(data))}
  {
    assert place in map[place := data];
  }

  /** What the outcome of an upload with distinct names holds for a root. */
  lemma OutcomeHolds(st: State, r: Request, q: string)
    requires DistinctNames(r.manifest)
    ensures Committed(st, r, Outcome(st, r))
    ensures Outcome(st, r).files == Saved(st.files, r.files, r.files.Keys)
    ensures HashOf(Outcome(st, r).ix.content, q)
            == if q == r.metadata.rootCid then HashOf(st.ix.content, q) + NameMap(r.manifest) else HashOf(st.ix.content, q)
  {
    OutcomeIsReached(st, r);
    UploadWithin(st, r, Outcome(st, r));
    OutcomeContent(st, r);
    hide Committed, NameMap, Placed, Finish, Publish, DistinctNames, ScenesWithin;
  }

  // ---------- a stray file ----------

  /** A form with a field, a, that no file entry of its manifest names. */
  const STRAY := Upload("Q2", [FileMetadata("b", "g"), FileMetadata("d", "x/")],
                        map["b" := FileHeader("g", "", [2]), "a" := FileHeader("f", "", [2])])

  lemma StrayIsAcceptable()
    ensures Acceptable(HASHING, LIMIT, EVERYTHING_GRANTED, BEFORE.files, STRAY)
  {
    LandGranted();
    TwoEntries(STRAY.files, BEFORE.files, STRAY.manifest[0], STRAY.manifest[1]);
    hide AllGranted, TreeOf, Estimate;
    OneLeaf("g", [2]);
    FileCids();
  }

  /** Every form key is saved as a file, so an acceptable upload of another root,
      with distinct names and no more files than entries, can overwrite the file
      that Q1 needs. */
  lemma StrayFileBreaksOtherRoot() returns (st': State)
    ensures DistinctNames(STRAY.manifest) && |STRAY.files| <= |STRAY.manifest| && STRAY.metadata.rootCid != "Q1"
    ensures Acceptable(HASHING, LIMIT, EVERYTHING_GRANTED, BEFORE.files, STRAY) && Committed(BEFORE, STRAY, st')
    ensures Verifies(HASHING, BEFORE, "Q1") && !Verifies(HASHING, st', "Q1")
  {
    BeforeVerifies();
    StrayIsAcceptable();
    StrayNames();
    hide Acceptable, Committed, Outcome, DistinctNames, Verifies;
    st' := Outcome(BEFORE, STRAY);
    OutcomeHolds(BEFORE, STRAY, "Q1");
    StrayOverwrites(st');
  }

  lemma StrayNames()
    ensures DistinctNames(STRAY.manifest) && |STRAY.files| <= |STRAY.manifest| && STRAY.metadata.rootCid != "Q1"
  {
    assert STRAY.files.Keys == {"a", "b"};
    assert STRAY.manifest[0].name[0] != STRAY.manifest[1].name[0];
  }

  lemma StrayOverwrites(st': State)
    requires st'.files == Saved(BEFORE.files, STRAY.files, STRAY.files.Keys)
    requires HashOf(st'.ix.content, "Q1") == HashOf(BEFORE.ix.content, "Q1")
    ensures !Verifies(HASHING, st', "Q1")
  {
    FileCids();
    assert st'.files["a"] == [2];
    assert "f" in FileNames(st'.ix, "Q1");
    assert AllStored(st', "Q1") ==> ("f", "b") in Rebuilt(HASHING, st', "Q1");
  }

  // ---------- two files in one place ----------

  /** Both entries land in f; the tree that is checked has only the second. */
  const REPEATED := Upload("Q1", [FileMetadata("b", "./f"), FileMetadata("a", "f")], map["b" := FileHeader("f", "", [2])])

  lemma RepeatedIsAcceptable()
    ensures Acceptable(HASHING, LIMIT, EVERYTHING_GRANTED, BEFORE.files, REPEATED)
  {
    LandGranted();
    TwoEntries(REPEATED.files, BEFORE.files, REPEATED.manifest[0], REPEATED.manifest[1]);
    hide AllGranted, TreeOf, Estimate;
    OneLeaf("f", [1]);
    FileCids();
  }

  lemma RepeatedNames()
    ensures DistinctNames(REPEATED.manifest) && KeysTidy(REPEATED) && REPEATED.metadata.rootCid == "Q1"
    ensures NameMap(REPEATED.manifest) == map["./f" := "b", "f" := "a"]
  {
    assert REPEATED.manifest[0] in REPEATED.manifest && REPEATED.manifest[0].cid == "b";
    assert REPEATED.manifest[..1] == [REPEATED.manifest[0]];
    assert REPEATED.manifest[..1][..0] == [];
  }

  /** So a later acceptable upload of Q1 itself, with distinct names and no stray
      file, can leave names under Q1 that no longer hash to it. */
  lemma RepeatedPlaceBreaksRoot() returns (st': State)
    ensures DistinctNames(REPEATED.manifest) && KeysTidy(REPEATED) && REPEATED.metadata.rootCid == "Q1"
    ensures Acceptable(HASHING, LIMIT, EVERYTHING_GRANTED, BEFORE.files, REPEATED) && Committed(BEFORE, REPEATED, st')
    ensures Verifies(HASHING, BEFORE, "Q1") && !Verifies(HASHING, st', "Q1")
  {
    BeforeVerifies();
    RepeatedIsAcceptable();
    RepeatedNames();
    hide Acceptable, Committed, Outcome, DistinctNames, KeysTidy, Verifies, NameMap;
    st' := Outcome(BEFORE, REPEATED);
    OutcomeHolds(BEFORE, REPEATED, "Q1");
    RepeatedRecords(st');
  }

  lemma RepeatedRecords(st': State)
    requires st'.files == Saved(BEFORE.files, REPEATED.files, REPEATED.files.Keys)
    requires HashOf(st'.ix.content, "Q1") == HashOf(BEFORE.ix.content, "Q1") + map["./f" := "b", "f" := "a"]
    ensures !Verifies(HASHING, st', "Q1")
  {
    FileCids();
    assert st'.files["b"] == [2];
    assert HashOf(st'.ix.content, "Q1")["./f"] == "b";
    assert "./f" in FileNames(st'.ix, "Q1");
    assert HASHING.place("./f") == "f";
    assert AllStored(st', "Q1") ==> ("f", "b") in Rebuilt(HASHING, st', "Q1");
  }
}
