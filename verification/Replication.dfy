/** cmd/replication/replication.go: copy the index of another service, parcel by
    parcel, from its answers to /mappings and /validate. */
module Replication {
  import opened Results
  import opened ParcelId
  import opened Rectangle
  import opened SceneIndex
  import opened Metadata
  import opened Redis
  import opened UploadRequest
  import opened UploadEffect
  import opened UploadRuns
  import opened RootMetadata
  import opened Readers
  import opened Mappings

  // ---------- the answers of the source ----------

  function TextAt(typed: map<string, Value>, key: string): string {
    if key in typed && typed[key].Str? then typed[key].text else ""
  }

  function NumberAt(typed: map<string, Value>, key: string): int64 {
    if key in typed && typed[key].Num? && Int64(typed[key].number) then typed[key].number else 0
  }

  /** Decoding an answer into metadata: absent fields get their zero value. The
      decoder looks for "value", which the stored "value " is not. */
  function Decode(typed: map<string, Value>): Metadata {
    Metadata(TextAt(typed, "value"), TextAt(typed, "signature"), TextAt(typed, "validity"),
             NumberAt(typed, "validityType"), NumberAt(typed, "sequence"),
             TextAt(typed, "pubkey"), TextAt(typed, "root_cid"), NumberAt(typed, "timestamp"))
  }

  predicate OnMap(x: int, y: int) {
    -150 <= x <= 150 && -150 <= y <= 150
  }

  /** GET /validate, decoded: an error answer decodes to empty metadata. */
  function Validated(src: Index, pid: string): Metadata {
    match Parse(pid)
    case None => Decode(map[])
    case Some((x, y)) =>
      var fields := InfoOf(src, src.metadata, Id(x, y));
      if OnMap(x, y) && fields.Some? && Typed(fields.value).Some? then Decode(Typed(fields.value).value) else Decode(map[])
  }

  // ---------- the copy ----------

  function CopyElements(ix: Index, root: string, elements: seq<ContentElement>): Index {
    if elements == [] then ix
    else
      var n := |elements| - 1;
      Step(CopyElements(ix, root, elements[..n]), SetContent(root, elements[n].file, elements[n].cid))
  }

  /** The replica once the parcel's root and the metadata of that root are written. */
  function Introduced(ix: Index, m: Metadata, p: ParcelContent): Index {
    Step(Step(ix, SetParcel(p.parcelId, m.rootCid)), SetMetadata(m.rootCid, FieldsOf(m)))
  }

  function CopyParcel(ix: Index, m: Metadata, p: ParcelContent): Index {
    CopyElements(Introduced(ix, m, p), m.rootCid, p.contents)
  }

  function CopyAll(ix: Index, src: Index, parcels: seq<ParcelContent>): Index {
    if parcels == [] then ix
    else
      var n := |parcels| - 1;
      CopyParcel(CopyAll(ix, src, parcels[..n]), Validated(src, parcels[n].parcelId), parcels[n])
  }

  /** The states in which the writes of one parcel can stop. */
  predicate PartOfParcel(ix: Index, m: Metadata, p: ParcelContent, ix': Index) {
    || ix' == ix
    || ix' == Step(ix, SetParcel(p.parcelId, m.rootCid))
    || exists k :: 0 <= k <= |p.contents| && ix' == CopyElements(Introduced(ix, m, p), m.rootCid, p.contents[..k])
  }

  /** The states in which the whole copy can stop: all before some parcel is copied. */
  predicate PartOfAll(ix: Index, src: Index, parcels: seq<ParcelContent>, ix': Index) {
    exists k :: 0 <= k < |parcels|
      && PartOfParcel(CopyAll(ix, src, parcels[..k]), Validated(src, parcels[k].parcelId), parcels[k], ix')
  }

  /** The tool stops at the first failed write, with that write lost or not. */
  method Replicate(src: Index, parcels: seq<ParcelContent>, replica: Redis) returns (ok: bool)
    modifies replica
    ensures ok <==> replica.failures == old(replica.failures)
    ensures ok ==> replica.ix == CopyAll(old(replica.ix), src, parcels)
    ensures !ok ==> PartOfAll(old(replica.ix), src, parcels, replica.ix)
  {
    hide Validated, PartOfParcel, CopyParcel;
    var i := 0;
    while i < |parcels|
      invariant 0 <= i <= |parcels|
      invariant replica.failures == old(replica.failures)
      invariant replica.ix == CopyAll(old(replica.ix), src, parcels[..i])
    {
      assert parcels[..i + 1][..i] == parcels[..i];
      var m := Validated(src, parcels[i].parcelId);
      ok := WriteParcel(m, parcels[i], replica);
      if !ok {
        return;
      }
      i := i + 1;
    }
    assert parcels[..i] == parcels;
    return true;
  }

  method WriteParcel(m: Metadata, p: ParcelContent, replica: Redis) returns (ok: bool)
    modifies replica
    ensures ok <==> replica.failures == old(replica.failures)
    ensures replica.failures >= old(replica.failures)
    ensures ok ==> replica.ix == CopyParcel(old(replica.ix), m, p)
    ensures !ok ==> PartOfParcel(old(replica.ix), m, p, replica.ix)
  {
    hide Step, FieldsOf;
    ghost var start := replica.ix;
    ghost var introduced := Introduced(start, m, p);
    assert CopyElements(introduced, m.rootCid, p.contents[..0]) == introduced;
    var placed := replica.Issue(SetParcel(p.parcelId, m.rootCid));
    if placed.Err? {
      return false;
    }
    var err := replica.StoreMetadata(m.rootCid, m);
    if err {
      return false;
    }
    var i := 0;
    while i < |p.contents|
      invariant 0 <= i <= |p.contents|
      invariant replica.failures == old(replica.failures)
      invariant replica.ix == CopyElements(introduced, m.rootCid, p.contents[..i])
    {
      assert p.contents[..i + 1][..i] == p.contents[..i];
      err := replica.StoreContent(m.rootCid, p.contents[i].file, p.contents[i].cid);
      if err {
        assert replica.ix in {CopyElements(introduced, m.rootCid, p.contents[..i]),
                              CopyElements(introduced, m.rootCid, p.contents[..i + 1])};
        return false;
      }
      i := i + 1;
    }
    assert p.contents[..i] == p.contents;
    return true;
  }

  // ---------- agreement ----------

  predicate Part(a: Fields, b: Fields) {
    forall n :: n in a ==> n in b && a[n] == b[n]
  }

  lemma {:induction false} CopiedElements(ix: Index, root: string, elements: seq<ContentElement>, hash: Fields)
    requires Part(HashOf(ix.content, root), hash)
    requires forall e :: e in elements ==> e.file in hash && hash[e.file] == e.cid
    ensures var ix' := CopyElements(ix, root, elements);
            && ix'.parcelCid == ix.parcelCid && ix'.metadata == ix.metadata
            && (forall q :: q != root ==> HashOf(ix'.content, q) == HashOf(ix.content, q))
            && Part(HashOf(ix'.content, root), hash)
            && (forall n :: n in HashOf(ix.content, root) ==> n in HashOf(ix'.content, root))
            && (forall e :: e in elements ==> e.file in HashOf(ix'.content, root))
  {
    if elements == [] {
    } else {
      var n := |elements| - 1;
      CopiedElements(ix, root, elements[..n], hash);
      assert elements == elements[..n] + [elements[n]];
    }
  }

  ghost predicate IdOnMap(p: string) {
    exists x, y :: OnMap(x, y) && p == Id(x, y)
  }

  /** An answer of the source about a parcel on the map. */
  ghost predicate FromSource(src: Index, p: ParcelContent) {
    && InfoIs(src, p.parcelId, Found(p))
    && IdOnMap(p.parcelId)
  }

  /** What /mappings answers for corners on the map: contents of the source, and
      one for each parcel of the rectangle that has a root. */
  lemma {:induction false} MappingsAreFromSource(src: Index, pids: seq<string>, contents: seq<ParcelContent>)
    requires MappingsFor(src, pids, contents)
    requires forall p :: p in pids ==> IdOnMap(p)
    ensures forall c :: c in contents ==> FromSource(src, c) && c.parcelId in pids
    ensures forall p :: p in pids && p in src.parcelCid && !InfoIs(src, p, NoInfo) ==>
              exists c :: c in contents && c.parcelId == p
  {
    hide InfoOf, Typed, IdOnMap, HasText;
    if pids == [] {
    } else {
      var n := |pids| - 1;
      assert pids == pids[..n] + [pids[n]];
      if InfoIs(src, pids[n], NoInfo) && MappingsFor(src, pids[..n], contents) {
        MappingsAreFromSource(src, pids[..n], contents);
      } else {
        var last := contents[|contents| - 1];
        var before := contents[..|contents| - 1];
        assert contents == before + [last];
        MappingsAreFromSource(src, pids[..n], before);
        assert last.parcelId == pids[n];
      }
    }
  }

  lemma CornersOnMap(x1: int, y1: int, x2: int, y2: int)
    requires OnMap(x1, y1) && OnMap(x2, y2)
    ensures forall p :: p in Ids(x1, y1, x2, y2) ==> IdOnMap(p)
  {
    hide Id, Ids;
    IdsAreExact(x1, y1, x2, y2);
    forall p | p in Ids(x1, y1, x2, y2)
      ensures IdOnMap(p)
    {
      var x, y :| Inside(x, y, x1, y1, x2, y2) && p == Id(x, y);
      assert OnMap(x, y);
    }
  }

  /** The metadata the tool works with is about the root the parcel maps to. */
  lemma ValidatedRoot(src: Index, p: ParcelContent)
    requires Named(src) && FromSource(src, p)
    ensures p.parcelId in src.parcelCid
    ensures Validated(src, p.parcelId).rootCid == src.parcelCid[p.parcelId] == p.rootCid
    ensures ListsHash(p.contents, HashOf(src.content, p.rootCid))
  {
    hide Typed, Print, Parse, Id;
    var x, y :| OnMap(x, y) && p.parcelId == Id(x, y);
    ParseOfId(x, y);
    assert NamesItself(src, src.parcelCid[p.parcelId]);
  }

  /** The replica agrees with the source on a parcel: its root and its content. */
  predicate Agrees(ix: Index, src: Index, p: ParcelContent) {
    && Lookup(ix.parcelCid, p.parcelId) == Some(p.rootCid) == Lookup(src.parcelCid, p.parcelId)
    && HashOf(ix.content, p.rootCid) == HashOf(src.content, p.rootCid)
  }

  ghost predicate Below(ix: Index, src: Index) {
    forall q :: Part(HashOf(ix.content, q), HashOf(src.content, q))
  }

  /** What copying one parcel does to the replica. */
  lemma CopiedParcel(ix: Index, src: Index, p: ParcelContent)
    requires Named(src) && FromSource(src, p) && Below(ix, src)
    ensures var ix' := CopyParcel(ix, Validated(src, p.parcelId), p);
            && ix'.parcelCid == ix.parcelCid[p.parcelId := p.rootCid]
            && HashOf(ix'.content, p.rootCid) == HashOf(src.content, p.rootCid)
            && forall q :: q != p.rootCid ==> HashOf(ix'.content, q) == HashOf(ix.content, q)
  {
    hide Named, FromSource, FieldsOf, Validated;
    ValidatedRoot(src, p);
    var m := Validated(src, p.parcelId);
    var root := m.rootCid;
    var hash := HashOf(src.content, root);
    CopiedElements(Introduced(ix, m, p), root, p.contents, hash);
    hide CopyElements, Below;
    var copied := HashOf(CopyParcel(ix, m, p).content, root);
    forall n | n in hash
      ensures n in copied
    {
      assert ContentElement(n, hash[n]) in p.contents;
    }
    assert copied == hash;
  }

  lemma StillBelow(ix: Index, src: Index, root: string, ix': Index)
    requires Below(ix, src) && Part(HashOf(ix'.content, root), HashOf(src.content, root))
    requires forall q :: q != root ==> HashOf(ix'.content, q) == HashOf(ix.content, q)
    ensures Below(ix', src)
  {
    hide HashOf, Part;
    forall q
      ensures Part(HashOf(ix'.content, q), HashOf(src.content, q))
    {
      assert q != root ==> HashOf(ix'.content, q) == HashOf(ix.content, q);
    }
  }

  lemma AnsweredRoot(src: Index, p: ParcelContent)
    requires Named(src) && InfoIs(src, p.parcelId, Found(p))
    ensures Lookup(src.parcelCid, p.parcelId) == Some(p.rootCid)
  {
    hide Typed;
    assert NamesItself(src, src.parcelCid[p.parcelId]);
  }

  lemma AgreementKept(ix: Index, src: Index, p: ParcelContent, ix': Index, q: ParcelContent)
    requires ix'.parcelCid == ix.parcelCid[p.parcelId := p.rootCid] && Lookup(src.parcelCid, p.parcelId) == Some(p.rootCid)
    requires HashOf(ix'.content, p.rootCid) == HashOf(src.content, p.rootCid)
    requires forall r :: r != p.rootCid ==> HashOf(ix'.content, r) == HashOf(ix.content, r)
    ensures Agrees(ix', src, p)
    ensures Agrees(ix, src, q) ==> Agrees(ix', src, q)
  {
    hide HashOf;
  }

  lemma CopiedParcelAgrees(ix: Index, src: Index, p: ParcelContent, q: ParcelContent)
    requires Named(src) && FromSource(src, p) && Below(ix, src)
    ensures var ix' := CopyParcel(ix, Validated(src, p.parcelId), p);
            Below(ix', src) && Agrees(ix', src, p) && (Agrees(ix, src, q) ==> Agrees(ix', src, q))
  {
    CopiedParcel(ix, src, p);
    AnsweredRoot(src, p);
    hide Named, FromSource, Validated, CopyParcel, ListsHash, InfoOf, HashOf, Below, Agrees, Lookup;
    var ix' := CopyParcel(ix, Validated(src, p.parcelId), p);
    StillBelow(ix, src, p.rootCid, ix');
    AgreementKept(ix, src, p, ix', q);
  }

  /** From a replica with no content that the source has not, every returned parcel
      has the same root and the same content on the replica as on the unchanging
      source, parcels that share a root included. */
  lemma {:induction false} ReplicaAgrees(ix: Index, src: Index, parcels: seq<ParcelContent>)
    requires Named(src) && Below(ix, src)
    requires forall p :: p in parcels ==> FromSource(src, p)
    ensures Below(CopyAll(ix, src, parcels), src)
    ensures forall p :: p in parcels ==> Agrees(CopyAll(ix, src, parcels), src, p)
  {
    hide Named, FromSource, Validated, CopyParcel, Agrees, Below;
    if parcels == [] {
    } else {
      var n := |parcels| - 1;
      var before := CopyAll(ix, src, parcels[..n]);
      assert parcels == parcels[..n] + [parcels[n]];
      ReplicaAgrees(ix, src, parcels[..n]);
      forall q | q in parcels
        ensures Agrees(CopyAll(ix, src, parcels), src, q)
      {
        CopiedParcelAgrees(before, src, parcels[n], q);
      }
      CopiedParcelAgrees(before, src, parcels[n], parcels[n]);
    }
  }

  /** Parcels that were not returned are left alone. */
  lemma {:induction false} OthersUntouched(ix: Index, src: Index, parcels: seq<ParcelContent>, pid: string)
    requires Named(src) && Below(ix, src)
    requires forall p :: p in parcels ==> FromSource(src, p) && p.parcelId != pid
    ensures Lookup(CopyAll(ix, src, parcels).parcelCid, pid) == Lookup(ix.parcelCid, pid)
  {
    hide Named, FromSource, Validated, CopyParcel, Agrees, Below;
    if parcels == [] {
    } else {
      var n := |parcels| - 1;
      assert parcels == parcels[..n] + [parcels[n]];
      OthersUntouched(ix, src, parcels[..n], pid);
      ReplicaAgrees(ix, src, parcels[..n]);
      CopiedParcel(CopyAll(ix, src, parcels[..n]), src, parcels[n]);
    }
  }

  lemma EmptyIsBelow(ix: Index, src: Index)
    requires ix.content == map[]
    ensures Below(ix, src)
  {
  }

  /** The tool as a whole: whatever the source answers to /mappings for corners on
      the map, as it parsed them, each parcel of that rectangle that the source maps
      is answered for and has its root and content on the replica; every other
      parcel is as it was. */
  lemma RectangleIsReplicated(
      ix: Index, src: Index, x1: int, y1: int, x2: int, y2: int, contents: seq<ParcelContent>, pid: string)
    requires Named(src) && Below(ix, src)
    requires OnMap(x1, y1) && OnMap(x2, y2) && MappingsFor(src, Ids(x1, y1, x2, y2), contents)
    ensures forall c :: c in contents ==> Agrees(CopyAll(ix, src, contents), src, c)
    ensures var ix' := CopyAll(ix, src, contents);
            if pid in Ids(x1, y1, x2, y2) && pid in src.parcelCid then
              && Lookup(ix'.parcelCid, pid) == Lookup(src.parcelCid, pid)
              && HashOf(ix'.content, src.parcelCid[pid]) == HashOf(src.content, src.parcelCid[pid])
            else Lookup(ix'.parcelCid, pid) == Lookup(ix.parcelCid, pid)
  {
    hide Ids, Named, Below, Validated, CopyAll, IdOnMap, ListsHash, Typed, HasText;
    CornersOnMap(x1, y1, x2, y2);
    MappingsAreFromSource(src, Ids(x1, y1, x2, y2), contents);
    ReplicaAgrees(ix, src, contents);
    if c :| c in contents && c.parcelId == pid {
      assert Agrees(CopyAll(ix, src, contents), src, c);
    } else {
      OthersUntouched(ix, src, contents, pid);
    }
  }

  /** So from an empty replica, whatever uploads the source went through before,
      failed ones included: the replica maps exactly what the source maps in the
      rectangle, with the same content. */
  lemma EmptyReplica(h: Hashing, limit: int, states: seq<State>, attempts: seq<Attempt>, j: nat,
                     x1: int, y1: int, x2: int, y2: int, contents: seq<ParcelContent>, pid: string)
    requires IsRun(h, limit, states, attempts) && j <= |attempts| && Named(states[0].ix)
    requires OnMap(x1, y1) && OnMap(x2, y2) && MappingsFor(states[j].ix, Ids(x1, y1, x2, y2), contents)
    ensures var src, replica := states[j].ix, CopyAll(EMPTY_INDEX, states[j].ix, contents);
            && Lookup(replica.parcelCid, pid) == (if pid in Ids(x1, y1, x2, y2) then Lookup(src.parcelCid, pid) else None)
            && (pid in replica.parcelCid ==>
                  HashOf(replica.content, src.parcelCid[pid]) == HashOf(src.content, src.parcelCid[pid]))
  {
    hide Attempted, Named, Below, MappingsFor, CopyAll, Ids;
    NamedAlways(h, limit, states, attempts, j);
    EmptyIsBelow(EMPTY_INDEX, states[j].ix);
    RectangleIsReplicated(EMPTY_INDEX, states[j].ix, x1, y1, x2, y2, contents, pid);
  }

  /** A replica can be a source in turn: its metadata is about its roots as well. */
  lemma {:induction false} ReplicaIsNamed(ix: Index, src: Index, parcels: seq<ParcelContent>)
    requires Named(ix)
    ensures Named(CopyAll(ix, src, parcels))
  {
    hide Named, CopyParcel, Validated;
    if parcels == [] {
    } else {
      var n := |parcels| - 1;
      ReplicaIsNamed(ix, src, parcels[..n]);
      CopiedParcelIsNamed(CopyAll(ix, src, parcels[..n]), Validated(src, parcels[n].parcelId), parcels[n]);
    }
  }

  lemma CopiedParcelIsNamed(ix: Index, m: Metadata, p: ParcelContent)
    requires Named(ix)
    ensures Named(CopyParcel(ix, m, p))
  {
    hide FieldsOf, Typed;
    ElementsKeepParcels(Introduced(ix, m, p), m.rootCid, p.contents);
    OverriddenFields(HashOf(ix.metadata, m.rootCid), m);
    forall q
      ensures NamesItself(CopyParcel(ix, m, p), q)
    {
      assert NamesItself(ix, q);
    }
  }

  lemma {:induction false} ElementsKeepParcels(ix: Index, root: string, elements: seq<ContentElement>)
    ensures CopyElements(ix, root, elements).parcelCid == ix.parcelCid
    ensures CopyElements(ix, root, elements).metadata == ix.metadata
  {
    if elements == [] {
    } else {
      ElementsKeepParcels(ix, root, elements[..|elements| - 1]);
    }
  }

  lemma CopiedRoot(ix: Index, m: Metadata, p: ParcelContent)
    ensures Lookup(CopyParcel(ix, m, p).parcelCid, p.parcelId) == Some(m.rootCid)
  {
    hide FieldsOf;
    ElementsKeepParcels(Introduced(ix, m, p), m.rootCid, p.contents);
  }

  lemma ValidatedOffMap(src: Index, x: int, y: int)
    requires Int64(x) && Int64(y) && !OnMap(x, y)
    ensures Validated(src, Id(x, y)).rootCid == ""
  {
    hide Typed, Print, Parse, Id, InfoOf;
    ParseOfId(x, y);
  }

  /** The tool does not look at the status of /validate, which refuses parcels off
      the map: the root of an answered parcel is copied exactly if it is on the map
      or its root is empty; off the map the parcel is put under the empty root. */
  lemma RootIsCopiedIff(ix: Index, src: Index, p: ParcelContent, x: int, y: int)
    requires Named(src) && InfoIs(src, p.parcelId, Found(p))
    requires Int64(x) && Int64(y) && p.parcelId == Id(x, y)
    ensures var root := Lookup(CopyParcel(ix, Validated(src, p.parcelId), p).parcelCid, p.parcelId);
            && (root == Lookup(src.parcelCid, p.parcelId) <==> OnMap(x, y) || p.rootCid == "")
            && (!OnMap(x, y) ==> root == Some(""))
    ensures OnMap(x, y) <==> -150 <= x <= 150 && -150 <= y <= 150
  {
    AnsweredRoot(src, p);
    CopiedRoot(ix, Validated(src, p.parcelId), p);
    hide InfoIs, Named, Validated, CopyParcel, Id;
    if OnMap(x, y) {
      assert IdOnMap(p.parcelId);
      ValidatedRoot(src, p);
    } else {
      ValidatedOffMap(src, x, y);
    }
  }

  /** A source with one described parcel off the map: its replica has the parcel
      under the empty root. */
  lemma OffMapIsMisplaced() returns (src: Index, p: ParcelContent)
    ensures Named(src) && MappingsFor(src, Ids(200, 200, 200, 200), [p])
    ensures Lookup(src.parcelCid, Id(200, 200)) == Some("Q")
    ensures Lookup(CopyAll(EMPTY_INDEX, src, [p]).parcelCid, Id(200, 200)) == Some("")
  {
    var m, pid := Metadata("", "", "", 0, 0, "key", "Q", 0), Id(200, 200);
    hide FieldsOf, Typed, Id, Ids, Validated, CopyParcel, CopyAll, MappingsFor;
    src := EMPTY_INDEX.(parcelCid := map[pid := "Q"], metadata := map["Q" := FieldsOf(m)]);
    p := ParcelContent(pid, [], "Q", "key");
    OneNamed(src, m);
    InfoOfOther(src, m, p);
    OneParcel(200, 200);
    OneAnswer(src, p);
    RootIsCopiedIff(EMPTY_INDEX, src, p, 200, 200);
  }

  lemma OneAnswer(src: Index, p: ParcelContent)
    requires InfoIs(src, p.parcelId, Found(p))
    ensures MappingsFor(src, [p.parcelId], [p])
    ensures CopyAll(EMPTY_INDEX, src, [p]) == CopyParcel(EMPTY_INDEX, Validated(src, p.parcelId), p)
  {
    hide InfoIs, Validated, CopyParcel;
    assert [p.parcelId][..0] == [] && [p][..0] == [];
    assert MappingsFor(src, [], []) && CopyAll(EMPTY_INDEX, src, []) == EMPTY_INDEX;
  }

  lemma OneParcel(x: int, y: int)
    ensures Ids(x, y, x, y) == [Id(x, y)]
  {
    hide Id;
    assert Column(x, y, y + 1) == Column(x, y, y) + [Id(x, y)] == [Id(x, y)];
    assert Grid(x, x + 1, y, y + 1) == Grid(x, x, y, y + 1) + Column(x, y, y + 1);
  }

  // ---------- a copy that stopped ----------

  lemma SomeElementsBelow(ix: Index, src: Index, m: Metadata, p: ParcelContent, k: nat)
    requires Below(ix, src) && k <= |p.contents|
    requires forall e :: e in p.contents ==>
               e.file in HashOf(src.content, m.rootCid) && HashOf(src.content, m.rootCid)[e.file] == e.cid
    ensures Below(CopyElements(Introduced(ix, m, p), m.rootCid, p.contents[..k]), src)
    ensures CopyElements(Introduced(ix, m, p), m.rootCid, p.contents[..k]).parcelCid == ix.parcelCid[p.parcelId := m.rootCid]
  {
    hide FieldsOf;
    var some := p.contents[..k];
    assert forall e :: e in some ==> e in p.contents;
    assert Introduced(ix, m, p).content == ix.content;
    assert Introduced(ix, m, p).parcelCid == ix.parcelCid[p.parcelId := m.rootCid];
    hide Introduced;
    CopiedElements(Introduced(ix, m, p), m.rootCid, some, HashOf(src.content, m.rootCid));
    hide HashOf, Part, Below;
    StillBelow(ix, src, m.rootCid, CopyElements(Introduced(ix, m, p), m.rootCid, some));
  }

  lemma PartOfParcelIsBelow(ix: Index, src: Index, m: Metadata, p: ParcelContent, ix': Index)
    requires Below(ix, src) && ListsHash(p.contents, HashOf(src.content, m.rootCid)) && PartOfParcel(ix, m, p, ix')
    ensures Below(ix', src)
    ensures ix'.parcelCid == ix.parcelCid || ix'.parcelCid == ix.parcelCid[p.parcelId := m.rootCid]
  {
    hide CopyElements, Introduced, Below;
    if k :| 0 <= k <= |p.contents| && ix' == CopyElements(Introduced(ix, m, p), m.rootCid, p.contents[..k]) {
      SomeElementsBelow(ix, src, m, p, k);
    } else {
      SameContentBelow(ix, src, ix');
    }
  }

  lemma SameContentBelow(ix: Index, src: Index, ix': Index)
    requires Below(ix, src) && ix'.content == ix.content
    ensures Below(ix', src)
  {
  }

  /** A copy that stopped part way has put no wrong root or content on the replica,
      so it can be repeated: after a repetition that succeeds the parcels agree. */
  lemma StoppedCopyIsRepeatable(ix: Index, src: Index, parcels: seq<ParcelContent>, ix': Index)
    requires Named(src) && Below(ix, src) && PartOfAll(ix, src, parcels, ix')
    requires forall p :: p in parcels ==> FromSource(src, p)
    ensures Below(ix', src)
    ensures forall pid :: Lookup(ix'.parcelCid, pid) in {Lookup(ix.parcelCid, pid), Lookup(src.parcelCid, pid)}
    ensures forall p :: p in parcels ==> Agrees(CopyAll(ix', src, parcels), src, p)
  {
    hide Named, FromSource, Validated, PartOfParcel, Below, Agrees, ListsHash;
    var k :| 0 <= k < |parcels|
      && PartOfParcel(CopyAll(ix, src, parcels[..k]), Validated(src, parcels[k].parcelId), parcels[k], ix');
    var before := CopyAll(ix, src, parcels[..k]);
    ReplicaAgrees(ix, src, parcels[..k]);
    ValidatedRoot(src, parcels[k]);
    PartOfParcelIsBelow(before, src, Validated(src, parcels[k].parcelId), parcels[k], ix');
    ReplicaAgrees(ix', src, parcels);
    forall pid
      ensures Lookup(before.parcelCid, pid) in {Lookup(ix.parcelCid, pid), Lookup(src.parcelCid, pid)}
    {
      if c :| c in parcels[..k] && c.parcelId == pid {
        AgreedRoot(before, src, c);
      } else {
        OthersUntouched(ix, src, parcels[..k], pid);
      }
    }
  }

  lemma AgreedRoot(ix: Index, src: Index, p: ParcelContent)
    requires Agrees(ix, src, p)
    ensures Lookup(ix.parcelCid, p.parcelId) == Lookup(src.parcelCid, p.parcelId)
  {
  }

  // ---------- metadata ----------

  /** What the tool makes of stored metadata: all of it but the value field. */
  lemma DecodedMetadata(m: Metadata)
    ensures Typed(FieldsOf(m)).Some? && Decode(Typed(FieldsOf(m)).value) == m.(value := "")
  {
    TypedOfFields(m);
    hide FieldsOf, Typed;
  }

  /** So the metadata of a copied root is that of the source exactly when the
      source stores an empty value. */
  lemma CopiedMetadata(ix: Index, src: Index, p: ParcelContent, m: Metadata)
    requires Named(src) && FromSource(src, p) && Below(ix, src)
    requires HashOf(src.metadata, p.rootCid) == FieldsOf(m)
    requires HashOf(ix.metadata, p.rootCid).Keys <= FieldsOf(m).Keys
    ensures var ix' := CopyParcel(ix, Validated(src, p.parcelId), p);
            && HashOf(ix'.metadata, p.rootCid) == FieldsOf(m.(value := ""))
            && (HashOf(ix'.metadata, p.rootCid) == HashOf(src.metadata, p.rootCid) <==> m.value == "")
  {
    ValidatedMetadata(src, p, m);
    ValidatedRoot(src, p);
    var v := Validated(src, p.parcelId);
    SameFieldNames(m, v);
    hide Validated, Typed, Named, FromSource, FieldsOf, InfoIs, ListsHash;
    MetadataOverridden(ix, v, p, HashOf(src.content, v.rootCid));
  }

  lemma MetadataOverridden(ix: Index, v: Metadata, p: ParcelContent, hash: Fields)
    requires HashOf(ix.metadata, v.rootCid).Keys <= FieldsOf(v).Keys
    requires Part(HashOf(ix.content, v.rootCid), hash)
    requires forall e :: e in p.contents ==> e.file in hash && hash[e.file] == e.cid
    ensures HashOf(CopyParcel(ix, v, p).metadata, v.rootCid) == FieldsOf(v)
  {
    hide FieldsOf;
    assert HashOf(ix.metadata, v.rootCid) + FieldsOf(v) == FieldsOf(v);
    CopiedElements(Introduced(ix, v, p), v.rootCid, p.contents, hash);
  }

  lemma SameFieldNames(m: Metadata, v: Metadata)
    requires v == m.(value := "")
    ensures FieldsOf(m).Keys == FieldsOf(v).Keys
    ensures FieldsOf(v) == FieldsOf(m) <==> m.value == ""
  {
    hide Print;
    assert FieldsOf(m)["value "] == m.value && FieldsOf(v)["value "] == "";
  }

  lemma ValidatedMetadata(src: Index, p: ParcelContent, m: Metadata)
    requires Named(src) && FromSource(src, p)
    requires HashOf(src.metadata, p.rootCid) == FieldsOf(m)
    ensures Validated(src, p.parcelId) == m.(value := "")
  {
    ValidatedRoot(src, p);
    DecodedMetadata(m);
    TypedOfFields(m);
    hide Typed, FieldsOf, Decode, Print, Parse, Id;
    var x, y :| OnMap(x, y) && p.parcelId == Id(x, y);
    ParseOfId(x, y);
  }
}
