/** Under content addressing, where a root CID fixes its parcel list, the index
    refines a set of live scenes from which an upload evicts all it overlaps. */
module LastWriterWins {
  import opened SceneIndex
  import opened SceneInvariant

  /** The parcel list each root CID comes with. */
  type Layout = string -> seq<string>

  predicate Overlap(a: seq<string>, b: seq<string>) {
    exists p :: p in a && p in b
  }

  /** The specification: uploading s removes the scenes it overlaps and adds s. */
  function Admit(live: set<string>, s: string, layout: Layout): set<string> {
    (set t | t in live && !Overlap(layout(t), layout(s))) + {s}
  }

  ghost predicate Refines(ix: Index, live: set<string>, layout: Layout) {
    && "" !in live
    && (forall t :: t in live ==> layout(t) != [])
    && (forall t :: ListOf(ix, t) == if t in live then Reverse(layout(t)) else [])
    && (forall p :: p in ix.parcelCid ==> p in layout(ix.parcelCid[p]))
    && Indexed(ix)
  }

  /** The scenes whose lists an upload deletes are the live scenes it overlaps. */
  lemma OwnersAreOverlapped(ix: Index, live: set<string>, layout: Layout, s: string, t: string)
    requires Refines(ix, live, layout) && t in live
    ensures t in Owners(ix, layout(s)) <==> Overlap(layout(t), layout(s))
  {
    if t in Owners(ix, layout(s)) {
      var p :| p in layout(s) && t == CidOf(ix, p);
      assert p in layout(t);
    }
    if p :| p in layout(t) && p in layout(s) {
      assert p in ListOf(ix, t);
      assert CidOf(ix, p) == t;
    }
  }

  /** Exact frame of an upload: other scenes that share a parcel are emptied, all
      others are unchanged, and the scene's list is its parcels in reverse. */
  lemma ExactFrame(ix: Index, live: set<string>, layout: Layout, s: string, t: string)
    requires Refines(ix, live, layout) && layout(s) != []
    ensures ListOf(SetScene(ix, s, layout(s)), t) ==
            if t == s then Reverse(layout(s))
            else if Overlap(layout(t), layout(s)) then []
            else ListOf(ix, t)
  {
    var ps := layout(s);
    ListAtBoundary(ix, s, ps, Owners(ix, ps), true, |ps|, t);
    if t in live {
      OwnersAreOverlapped(ix, live, layout, s, t);
    }
    if t == s && t in live {
      assert ps[0] in layout(t);
    }
  }

  lemma AdmitRefines(ix: Index, live: set<string>, layout: Layout, s: string)
    requires Refines(ix, live, layout) && layout(s) != [] && s != ""
    ensures Refines(SetScene(ix, s, layout(s)), Admit(live, s, layout), layout)
  {
    var ix' := SetScene(ix, s, layout(s));
    IndexedKept(ix, s, layout(s));
    forall t
      ensures ListOf(ix', t) == if t in Admit(live, s, layout) then Reverse(layout(t)) else []
    {
      ExactFrame(ix, live, layout, s, t);
    }
    assert layout(s)[..|layout(s)|] == layout(s);
  }

  /** Uploading the same scene again changes nothing. */
  lemma UploadIsIdempotent(ix: Index, live: set<string>, layout: Layout, s: string)
    requires Refines(ix, live, layout) && layout(s) != [] && s != ""
    ensures var once := SetScene(ix, s, layout(s)); SetScene(once, s, layout(s)) == once
  {
    ExactFrame(ix, live, layout, s, s);
    hide Refines;
    RepeatedCall(ix, s, layout(s));
  }

  /** Repeating a completed call changes nothing if its list is only its parcels. */
  lemma RepeatedCall(ix: Index, s: string, ps: seq<string>)
    requires ps != [] && ListOf(SetScene(ix, s, ps), s) == Reverse(ps)
    ensures SetScene(SetScene(ix, s, ps), s, ps) == SetScene(ix, s, ps)
  {
    hide Reverse;
    var once := SetScene(ix, s, ps);
    assert ps[..|ps|] == ps;
    assert forall p :: p in ps ==> CidOf(once, p) == s;
    assert Owners(once, ps) == {s} by {
      assert CidOf(once, ps[0]) in Owners(once, ps);
    }
    hide SetScene;
    assert Repoint(once.parcelCid, s, ps) == once.parcelCid;
    assert Push(once.sceneParcels - {s}, s, ps) == once.sceneParcels by {
      assert Reverse(ps) + [] == Reverse(ps);
      assert |Reverse(ps)| == |ps|;
    }
    TwiceIs(once, s, ps);
  }

  lemma TwiceIs(once: Index, s: string, ps: seq<string>)
    requires Owners(once, ps) == {s}
    ensures SetScene(once, s, ps)
            == once.(parcelCid := Repoint(once.parcelCid, s, ps), sceneParcels := Push(once.sceneParcels - {s}, s, ps))
  {
    assert ps[..|ps|] == ps;
  }

  // ---------- whole runs ----------

  function Calls(history: seq<string>, layout: Layout): seq<Call> {
    seq(|history|, i requires 0 <= i < |history| => Call(history[i], layout(history[i])))
  }

  function LiveAfter(history: seq<string>, layout: Layout): set<string> {
    if history == [] then {}
    else Admit(LiveAfter(history[..|history| - 1], layout), history[|history| - 1], layout)
  }

  /** s was uploaded, and since then no different scene that overlaps it. */
  predicate Survives(history: seq<string>, s: string, layout: Layout) {
    exists i :: 0 <= i < |history| && history[i] == s && Undisturbed(history, i, s, layout)
  }

  predicate Undisturbed(history: seq<string>, i: nat, s: string, layout: Layout) {
    forall j :: i < j < |history| ==> history[j] == s || !Overlap(layout(history[j]), layout(s))
  }

  lemma {:induction false} LiveIffSurvives(history: seq<string>, s: string, layout: Layout)
    ensures s in LiveAfter(history, layout) <==> Survives(history, s, layout)
  {
    if history == [] {
    } else {
      var n := |history| - 1;
      var before, u := history[..n], history[n];
      LiveIffSurvives(before, s, layout);
      if s == u {
        assert Undisturbed(history, n, s, layout);
      } else {
        if i :| 0 <= i < n && before[i] == s && Undisturbed(before, i, s, layout) {
          assert !Overlap(layout(u), layout(s)) ==> Undisturbed(history, i, s, layout);
        }
        if i :| 0 <= i < |history| && history[i] == s && Undisturbed(history, i, s, layout) {
          assert before[i] == s && Undisturbed(before, i, s, layout);
          assert !Overlap(layout(u), layout(s));
        }
      }
    }
  }

  lemma {:induction false} ReplayRefines(ix: Index, history: seq<string>, layout: Layout)
    requires Refines(ix, {}, layout)
    requires forall s :: s in history ==> s != "" && layout(s) != []
    ensures Refines(Replay(ix, Calls(history, layout)), LiveAfter(history, layout), layout)
  {
    hide Refines, SetScene, Admit;
    var calls := Calls(history, layout);
    if history == [] {
    } else {
      var n := |history| - 1;
      assert forall s :: s in history[..n] ==> s in history;
      assert history[n] in history;
      ReplayRefines(ix, history[..n], layout);
      assert calls[..n] == Calls(history[..n], layout);
      AdmitRefines(Replay(ix, calls[..n]), LiveAfter(history[..n], layout), layout, history[n]);
    }
  }

  /** Last writer wins. After any sequence of uploads a scene's list is non-empty
      exactly when it was uploaded and no different overlapping scene was uploaded
      after it, and the list is then its parcel list in reverse. */
  lemma LastWriterWins(ix: Index, history: seq<string>, layout: Layout, s: string)
    requires Refines(ix, {}, layout)
    requires forall t :: t in history ==> t != "" && layout(t) != []
    ensures var list := ListOf(Replay(ix, Calls(history, layout)), s);
            && (list != [] <==> Survives(history, s, layout))
            && (list != [] ==> list == Reverse(layout(s)))
            && (list != [] ==>
                  |list| == |layout(s)| && forall i :: 0 <= i < |list| ==> list[i] == layout(s)[|list| - 1 - i])
  {
    ReplayRefines(ix, history, layout);
    LiveIffSurvives(history, s, layout);
    LiveList(Replay(ix, Calls(history, layout)), LiveAfter(history, layout), layout, s);
    hide Refines, Replay, LiveAfter, Survives, Reverse, ListOf, Calls;
  }

  /** The list of a live scene is its parcels, the last one first. */
  lemma LiveList(ix: Index, live: set<string>, layout: Layout, s: string)
    requires Refines(ix, live, layout)
    ensures s !in live ==> ListOf(ix, s) == []
    ensures s in live ==>
              && ListOf(ix, s) == Reverse(layout(s)) != [] && |ListOf(ix, s)| == |layout(s)|
              && forall i :: 0 <= i < |layout(s)| ==> ListOf(ix, s)[i] == layout(s)[|layout(s)| - 1 - i]
  {
    assert ListOf(ix, s) == if s in live then Reverse(layout(s)) else [];
    hide Refines, Reverse, ListOf;
    forall i | 0 <= i < |layout(s)|
      ensures Reverse(layout(s))[i] == layout(s)[|layout(s)| - 1 - i]
    {
      ReversedAt(layout(s), i);
    }
  }

  /** An index without lists refines no live scenes, if parcels map to roots that
      come with them. */
  lemma NoListsRefine(ix: Index, layout: Layout)
    requires ix.sceneParcels == map[] && forall p :: p in ix.parcelCid ==> p in layout(ix.parcelCid[p])
    ensures Refines(ix, {}, layout)
  {
  }

  /** The premise is needed: one root uploaded with two parcel lists keeps both. */
  lemma WithoutLayout()
    ensures ListOf(Replay(EMPTY_INDEX, [Call("s", ["0,0"]), Call("s", ["0,1"])]), "s") == ["0,1", "0,0"]
  {
    var calls := [Call("s", ["0,0"]), Call("s", ["0,1"])];
    assert calls[..1] == [calls[0]] && calls[..1][..0] == [];
    var ix := SetScene(EMPTY_INDEX, "s", ["0,0"]);
    assert Replay(EMPTY_INDEX, calls[..1]) == ix;
    ListAtBoundary(EMPTY_INDEX, "s", ["0,0"], Owners(EMPTY_INDEX, ["0,0"]), true, 1, "s");
    assert "0,1" !in ix.parcelCid;
    ListAtBoundary(ix, "s", ["0,1"], Owners(ix, ["0,1"]), true, 1, "s");
    assert Reverse(["0,0"]) == ["0,0"] && Reverse(["0,1"]) == ["0,1"];
  }
}
