/** The metadata stored under a root is about that root, in every state that
    uploads can leave behind. */
module RootMetadata {
  import opened Results
  import opened SceneIndex
  import opened Metadata
  import opened UploadRequest
  import opened UploadEffect
  import opened UploadService
  import opened UploadRuns

  /** The metadata of a root CID converts, and names that root and a publisher. */
  predicate IsDescribed(ix: Index, root: string) {
    var typed := Typed(HashOf(ix.metadata, root));
    && typed.Some?
    && "root_cid" in typed.value && typed.value["root_cid"] == Str(root)
    && "pubkey" in typed.value && typed.value["pubkey"].Str?
  }

  /** A request whose metadata is about its own root, as parseSceneMetadata makes it. */
  lemma DescribedAfter(ix: Index, r: Request)
    ensures IsDescribed(Finish(ix, r), r.metadata.rootCid)
  {
    var m := r.metadata;
    FinishMetadata(ix, r);
    hide Finish, Typed, FieldsOf;
    OverriddenFields(HashOf(ix.metadata, m.rootCid), m);
  }

  lemma FinishMetadata(ix: Index, r: Request)
    ensures HashOf(Finish(ix, r).metadata, r.metadata.rootCid)
            == HashOf(ix.metadata, r.metadata.rootCid) + FieldsOf(r.metadata)
  {
    hide FieldsOf, SceneCidOf;
  }

  /** Metadata written over older fields converts, to its own values. */
  lemma OverriddenFields(prior: Fields, m: Metadata)
    ensures var typed := Typed(prior + FieldsOf(m));
            typed.Some? && forall k :: k in ValuesOf(m) ==> k in typed.value && typed.value[k] == ValuesOf(m)[k]
  {
    var fields := prior + FieldsOf(m);
    TypedOfFields(m);
    NamesOfFields(m);
    hide Convert, ValuesOf;
    forall k | k in fields
      ensures Convert(k, fields[k]).Some?
      ensures k in ValuesOf(m) ==> Convert(k, fields[k]).value == ValuesOf(m)[k]
    {
      if k in FieldsOf(m) {
        assert Typed(FieldsOf(m)).value[k] == Convert(k, FieldsOf(m)[k]).value;
      } else {
        PlainField(k, fields[k]);
      }
    }
  }

  lemma PlainField(k: string, value: string)
    ensures !IsNumeric(k) ==> Convert(k, value) == Some(Str(value))
  {
  }

  lemma NamesOfFields(m: Metadata)
    ensures FieldsOf(m).Keys == ValuesOf(m).Keys
    ensures forall k :: IsNumeric(k) ==> k in FieldsOf(m)
  {
  }

  // ---------- whatever becomes of an upload ----------

  /** Metadata that can be read and names a root names the one it is stored under. */
  ghost predicate Named(ix: Index) {
    forall q :: NamesItself(ix, q)
  }

  predicate NamesItself(ix: Index, q: string) {
    var typed := Typed(HashOf(ix.metadata, q));
    typed.Some? && "root_cid" in typed.value ==> typed.value["root_cid"] == Str(q)
  }

  function Overridden(m: map<string, Fields>, r: Request): map<string, Fields> {
    m[r.metadata.rootCid := HashOf(m, r.metadata.rootCid) + FieldsOf(r.metadata)]
  }

  /** An upload writes metadata under its own root only, all of it or nothing. */
  lemma MetadataWithin(st: State, r: Request, st': State)
    requires Committed(st, r, st') || Underway(st, r, st')
    ensures st'.ix.metadata == st.ix.metadata || st'.ix.metadata == Overridden(st.ix.metadata, r)
  {
    hide Overwritten, Placing, Finishing, Placed, Finish, CidsIn, Entries, Overridden;
    var ix, ix', root, entries := st.ix, st'.ix, r.metadata.rootCid, Entries(r.manifest);
    if ix' != ix && !Publishing(ix, root, entries, CidsIn(entries), ix') {
      var mid :| Published(ix, root, entries, CidsIn(entries), mid)
        && (Placing(mid, root, r.parcels, ix') || Finishing(Placed(mid, root, r.parcels), r, ix')
            || ix' == Finish(Placed(mid, root, r.parcels), r));
      FinishIsFinishing(Placed(mid, root, r.parcels), r);
      PlacingKeepsMetadata(mid, root, r.parcels, ix');
      FinishingMetadata(Placed(mid, root, r.parcels), r, ix');
    }
  }

  lemma PlacingKeepsMetadata(ix: Index, root: string, parcels: seq<string>, ix': Index)
    ensures Placing(ix, root, parcels, ix') ==> ix'.metadata == ix.metadata
    ensures Placed(ix, root, parcels).metadata == ix.metadata
  {
  }

  lemma FinishingMetadata(ix: Index, r: Request, ix': Index)
    ensures Finishing(ix, r, ix') ==> ix'.metadata == ix.metadata || ix'.metadata == Overridden(ix.metadata, r)
  {
    hide FieldsOf, SceneCidOf;
  }

  lemma OverriddenIsNamed(ix: Index, r: Request, ix': Index)
    requires Named(ix) && ix'.metadata == Overridden(ix.metadata, r)
    ensures Named(ix')
  {
    OverriddenFields(HashOf(ix.metadata, r.metadata.rootCid), r.metadata);
    hide Typed, FieldsOf;
    forall q
      ensures NamesItself(ix', q)
    {
      assert NamesItself(ix, q);
    }
  }

  lemma NamedKept(h: Hashing, limit: int, st: State, a: Attempt, st': State)
    requires Attempted(h, limit, st, a, st') && Named(st.ix)
    ensures Named(st'.ix)
  {
    hide Acceptable, Committed, Underway, Typed, Overridden;
    if st' != st {
      MetadataWithin(st, a.request, st');
      if st'.ix.metadata == st.ix.metadata {
        assert forall q :: NamesItself(st.ix, q) ==> NamesItself(st'.ix, q);
      } else {
        OverriddenIsNamed(st.ix, a.request, st'.ix);
      }
    }
  }

  /** Over every run, failures included, from an index whose metadata is about its
      roots: it still is. */
  lemma {:induction false} NamedAlways(h: Hashing, limit: int, states: seq<State>, attempts: seq<Attempt>, j: nat)
    requires IsRun(h, limit, states, attempts) && j <= |attempts| && Named(states[0].ix)
    ensures Named(states[j].ix)
  {
    hide Attempted, Named;
    if j == 0 {
    } else {
      NamedAlways(h, limit, states, attempts, j - 1);
      NamedKept(h, limit, states[j - 1], attempts[j - 1], states[j]);
    }
  }

  lemma NothingNamed(ix: Index)
    requires ix.metadata == map[]
    ensures Named(ix)
  {
  }
}
