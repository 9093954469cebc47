/** What sequences of SetSceneParcels calls keep, with no assumption on which
    parcels a root CID comes with, and what an interrupted call breaks. */
module SceneInvariant {
  import opened SceneIndex

  /** Every parcel in the list of a scene maps to that scene. */
  ghost predicate Indexed(ix: Index) {
    forall s, p :: p in ListOf(ix, s) ==> p in ix.parcelCid && ix.parcelCid[p] == s
  }

  /** No parcel is in the lists of two scenes. */
  ghost predicate Disjoint(ix: Index) {
    forall s, t, p :: p in ListOf(ix, s) && p in ListOf(ix, t) ==> s == t
  }

  lemma IndexedIsDisjoint(ix: Index)
    requires Indexed(ix)
    ensures Disjoint(ix)
  {
    forall s, t, p | p in ListOf(ix, s) && p in ListOf(ix, t)
      ensures s == t
    {
      assert ix.parcelCid[p] == s;
    }
  }

  // ---------- completed calls ----------

  /** The lists at a command boundary of SetSceneParcels. */
  lemma ListAtBoundary(ix: Index, s: string, ps: seq<string>, removed: set<string>, pushed: bool, k: nat, t: string)
    requires Boundary(ix, ps, removed, pushed, k)
    ensures var left := if t in removed then [] else ListOf(ix, t);
            ListOf(Partial(ix, s, ps, removed, pushed, k), t)
            == if pushed && t == s then Reverse(ps) + left else left
  {
    if pushed && t == s && ps == [] {
      assert Reverse(ps) == [];
    }
  }

  /** The index is consistent but for parcels of ps listed for s. */
  ghost predicate IndexedUpTo(ix: Index, s: string, ps: seq<string>) {
    forall t, p :: p in ListOf(ix, t) ==> (t == s && p in ps) || (p in ix.parcelCid && ix.parcelCid[p] == t)
  }

  /** A completed call needs no more than that to leave a consistent index. */
  lemma CallRestores(ix: Index, s: string, ps: seq<string>)
    requires IndexedUpTo(ix, s, ps)
    ensures Indexed(SetScene(ix, s, ps))
  {
    hide Reverse;
    var ix' := SetScene(ix, s, ps);
    forall t, p | p in ListOf(ix', t)
      ensures p in ix'.parcelCid && ix'.parcelCid[p] == t
    {
      ListAtBoundary(ix, s, ps, Owners(ix, ps), true, |ps|, t);
      if p in ps {
        assert CidOf(ix, p) in Owners(ix, ps);
      }
    }
  }

  lemma IndexedKept(ix: Index, s: string, ps: seq<string>)
    requires Indexed(ix)
    ensures Indexed(SetScene(ix, s, ps))
  {
    CallRestores(ix, s, ps);
  }

  datatype Call = Call(scene: string, parcels: seq<string>)

  /** The index after a sequence of completed calls. */
  function Replay(ix: Index, calls: seq<Call>): Index {
    if calls == [] then ix
    else
      var c := calls[|calls| - 1];
      SetScene(Replay(ix, calls[..|calls| - 1]), c.scene, c.parcels)
  }

  /** From an index without scene lists, whatever its parcels map to, every
      sequence of calls keeps the index consistent and the lists disjoint. */
  lemma {:induction false} IndexedAlways(ix: Index, calls: seq<Call>)
    requires ix.sceneParcels == map[]
    ensures Indexed(Replay(ix, calls))
    ensures Disjoint(Replay(ix, calls))
  {
    if calls == [] {
    } else {
      var c := calls[|calls| - 1];
      IndexedAlways(ix, calls[..|calls| - 1]);
      IndexedKept(Replay(ix, calls[..|calls| - 1]), c.scene, c.parcels);
    }
    IndexedIsDisjoint(Replay(ix, calls));
  }

  // ---------- interrupted calls ----------

  /** A parcel listed at a command boundary is in the new list, or in an old one
      that the call does not touch, or, before any push, does not yet touch. */
  lemma ListedAtBoundary(ix: Index, s: string, ps: seq<string>, removed: set<string>, pushed: bool, k: nat, t: string, p: string)
    requires Indexed(ix) && Boundary(ix, ps, removed, pushed, k)
    requires p in ListOf(Partial(ix, s, ps, removed, pushed, k), t)
    ensures || (pushed && t == s && p in ps)
            || (p in ix.parcelCid && ix.parcelCid[p] == t && (p in ps ==> !pushed && k == 0))
  {
    ListAtBoundary(ix, s, ps, removed, pushed, k, t);
    hide Partial, Reverse;
    if p in ps {
      assert CidOf(ix, p) in Owners(ix, ps);
    }
  }

  /** Wherever one call on a consistent index stops, no parcel is in two lists. */
  lemma InterruptedDisjoint(ix: Index, s: string, ps: seq<string>, ix': Index)
    requires Indexed(ix) && Interrupted(ix, s, ps, ix')
    ensures Disjoint(ix')
  {
    var removed, pushed, k :|
      Boundary(ix, ps, removed, pushed, k) && ix' == Partial(ix, s, ps, removed, pushed, k);
    forall t, u, p | p in ListOf(ix', t) && p in ListOf(ix', u)
      ensures t == u
    {
      ListedAtBoundary(ix, s, ps, removed, pushed, k, t, p);
      ListedAtBoundary(ix, s, ps, removed, pushed, k, u, p);
    }
  }

  /** However often it is tried, wherever it stops, only parcels of the call listed
      for its scene may map elsewhere. */
  lemma InterruptedIndexed(ix: Index, s: string, ps: seq<string>, ix': Index)
    requires IndexedUpTo(ix, s, ps) && Interrupted(ix, s, ps, ix')
    ensures IndexedUpTo(ix', s, ps)
  {
    hide Reverse;
    var removed, pushed, k :|
      Boundary(ix, ps, removed, pushed, k) && ix' == Partial(ix, s, ps, removed, pushed, k);
    forall t, p | p in ListOf(ix', t)
      ensures (t == s && p in ps) || (p in ix'.parcelCid && ix'.parcelCid[p] == t)
    {
      ListAtBoundary(ix, s, ps, removed, pushed, k, t);
      if p in ps {
        assert CidOf(ix, p) in Owners(ix, ps);
      }
    }
  }

  /** The list that the repeated call leaves. A parcel is listed twice exactly
      when the first call pushed its list and repointed no parcel, and the scene
      owned none of the parcels before. */
  lemma RetryList(ix: Index, s: string, ps: seq<string>, removed: set<string>, pushed: bool, k: nat)
    requires ps != [] && Boundary(ix, ps, removed, pushed, k)
    ensures ListOf(SetScene(Partial(ix, s, ps, removed, pushed, k), s, ps), s)
            == Reverse(ps) + if k > 0 || s in Owners(ix, ps) then []
                             else (if pushed then Reverse(ps) else []) + ListOf(ix, s)
  {
    var ix' := Partial(ix, s, ps, removed, pushed, k);
    ListAtBoundary(ix', s, ps, Owners(ix', ps), true, |ps|, s);
    ListAtBoundary(ix, s, ps, removed, pushed, k, s);
    OwnedAtBoundary(ix, s, ps, removed, pushed, k);
    hide Partial, Owners, Reverse, ListOf;
  }

  /** One parcel, first placed by a call that fails right after its push. */
  lemma ListedTwice() returns (ix: Index)
    ensures Interrupted(EMPTY_INDEX, "s", ["0,0"], ix)
    ensures ListOf(SetScene(ix, "s", ["0,0"]), "s") == ["0,0", "0,0"]
  {
    var ps, owners := ["0,0"], Owners(EMPTY_INDEX, ["0,0"]);
    ix := Partial(EMPTY_INDEX, "s", ps, owners, true, 0);
    assert Boundary(EMPTY_INDEX, ps, owners, true, 0);
    RetryList(EMPTY_INDEX, "s", ps, owners, true, 0);
    assert Reverse(ps) == ["0,0"] by {
      assert Reverse(ps[1..]) == [];
    }
  }

  lemma OwnedAtBoundary(ix: Index, s: string, ps: seq<string>, removed: set<string>, pushed: bool, k: nat)
    requires ps != [] && k <= |ps|
    ensures var owners := Owners(Partial(ix, s, ps, removed, pushed, k), ps);
            (k > 0 ==> s in owners) && (k == 0 ==> owners == Owners(ix, ps))
  {
    var ix' := Partial(ix, s, ps, removed, pushed, k);
    if k > 0 {
      assert ps[0] in ps[..k];
      assert CidOf(ix', ps[0]) == s;
    } else {
      assert ix'.parcelCid == ix.parcelCid;
    }
  }

  /** Each parcel of ps in the list of another scene maps to an owner of ps. */
  ghost predicate ListedByOwners(ix: Index, s: string, ps: seq<string>) {
    forall t, p :: t != s && p in ps && p in ListOf(ix, t) ==> t in Owners(ix, ps)
  }

  /** Wherever a call stops, it keeps the lists disjoint if and only if it did not
      come to push its list, or each of its parcels that another scene lists maps to
      a scene that the call deletes. */
  lemma DisjointAtBoundaryIff(ix: Index, s: string, ps: seq<string>, removed: set<string>, pushed: bool, k: nat)
    requires Disjoint(ix) && Boundary(ix, ps, removed, pushed, k)
    ensures Disjoint(Partial(ix, s, ps, removed, pushed, k)) <==> (pushed ==> ListedByOwners(ix, s, ps))
  {
    var ix' := Partial(ix, s, ps, removed, pushed, k);
    forall t
      ensures ListOf(ix', t) == (if pushed && t == s then Reverse(ps) else []) + if t in removed then [] else ListOf(ix, t)
    {
      ListAtBoundary(ix, s, ps, removed, pushed, k, t);
    }
    hide Partial, Owners;
    if pushed {
      if t, p :| t != s && p in ps && p in ListOf(ix, t) && t !in Owners(ix, ps) {
        assert p in ListOf(ix', t) && p in ListOf(ix', s);
      }
    }
  }

  /** A repeated call that fails as well leaves what one failed call leaves. */
  lemma InterruptedAgain(ix: Index, s: string, ps: seq<string>, ix': Index)
    requires IndexedUpTo(ix, s, ps) && Disjoint(ix) && Interrupted(ix, s, ps, ix')
    ensures IndexedUpTo(ix', s, ps) && Disjoint(ix')
  {
    InterruptedIndexed(ix, s, ps, ix');
    assert ListedByOwners(ix, s, ps) by {
      forall t, p | t != s && p in ps && p in ListOf(ix, t)
        ensures t in Owners(ix, ps)
      {
        assert CidOf(ix, p) == t;
      }
    }
    hide Partial, Disjoint, IndexedUpTo, Owners;
    var removed, pushed, k :|
      Boundary(ix, ps, removed, pushed, k) && ix' == Partial(ix, s, ps, removed, pushed, k);
    DisjointAtBoundaryIff(ix, s, ps, removed, pushed, k);
  }

  /** However often a call fails, no parcel is in two lists; and the repetition
      that succeeds restores consistency. */
  lemma {:induction false} RetryRestores(s: string, ps: seq<string>, states: seq<Index>)
    requires states != [] && Indexed(states[0])
    requires forall i :: 0 < i < |states| ==> Interrupted(states[i - 1], s, ps, states[i])
    ensures IndexedUpTo(states[|states| - 1], s, ps) && Disjoint(states[|states| - 1])
    ensures Indexed(SetScene(states[|states| - 1], s, ps))
  {
    var n := |states| - 1;
    hide SetScene, Interrupted;
    if n == 0 {
      IndexedIsDisjoint(states[0]);
    } else {
      RetryRestores(s, ps, states[..n]);
      hide IndexedUpTo, Disjoint;
      InterruptedAgain(states[n - 1], s, ps, states[n]);
    }
    CallRestores(states[n], s, ps);
  }

  /** A completed call keeps the lists disjoint exactly under that condition. */
  lemma DisjointKeptIff(ix: Index, s: string, ps: seq<string>)
    requires Disjoint(ix)
    ensures Disjoint(SetScene(ix, s, ps)) <==> ListedByOwners(ix, s, ps)
  {
    DisjointAtBoundaryIff(ix, s, ps, Owners(ix, ps), true, |ps|);
  }

  /** An interrupted call followed by a completed call for another scene can put
      a parcel in two lists: the second call does not find the first one's list. */
  lemma InterruptionThenOtherScene() returns (ix: Index, ix': Index)
    ensures Indexed(ix) && Interrupted(ix, "s", ["0,0", "0,1"], ix')
    ensures !Disjoint(SetScene(ix', "u", ["0,1"]))
  {
    var ps := ["0,0", "0,1"];
    ix := EMPTY_INDEX;
    var owners := Owners(ix, ps);
    assert Boundary(ix, ps, owners, true, 1);
    ix' := Partial(ix, "s", ps, owners, true, 1);
    ListAtBoundary(ix, "s", ps, owners, true, 1, "s");
    ListAtBoundary(ix, "s", ps, owners, true, 1, "u");
    assert "0,1" in ListOf(ix', "s") && "0,1" !in ix'.parcelCid by {
      assert ps[..1] == ["0,0"];
    }
    assert "s" !in Owners(ix', ["0,1"]);
    InterruptedDisjoint(ix, "s", ps, ix');
    DisjointKeptIff(ix', "u", ["0,1"]);
  }
}
