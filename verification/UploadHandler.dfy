/** internal/handlers/upload_handler.go: from a decoded form to an HTTP status. */
module UploadHandler {
  import opened Results
  import opened ParcelId
  import opened Metadata
  import opened Storage
  import opened Authorization
  import opened UploadRequest
  import opened UploadEffect
  import opened UploadService

  /** A part of the form that is absent, present but malformed, or valid. */
  datatype Part<+T> = Missing | Malformed | Valid(value: T)

  /** The files under one name: at least one, of which only the first is uploaded. */
  datatype Headers = Headers(first: FileHeader, more: seq<FileHeader>)

  datatype Form = Form(
    readable: bool,
    metadata: Part<Metadata>,
    now: int,
    manifest: Part<seq<FileMetadata>>, // the part named by the root CID
    files: map<string, Headers>,
    complete: bool)                    // the last check of required fields

  datatype Limits = Limits(timeToLive: int, parcelAssets: int, allowed: string -> bool,
                           parcelsOf: Bytes -> Option<seq<string>>) // reads a scene.json

  function Firsts(files: map<string, Headers>): map<string, FileHeader> {
    map cid | cid in files :: files[cid].first
  }

  predicate IsSceneFile(f: FileHeader) {
    f.filename == "scene.json"
  }

  predicate AllAllowed(l: Limits, headers: Headers) {
    l.allowed(headers.first.contentType) && forall f :: f in headers.more ==> l.allowed(f.contentType)
  }

  predicate TypesAllowed(l: Limits, files: map<string, Headers>) {
    forall cid :: cid in files ==> AllAllowed(l, files[cid])
  }

  /** r is a request that the form stands for, within the limits. */
  predicate ParsesAs(l: Limits, form: Form, r: Request) {
    && form.readable && form.complete
    && form.metadata == Valid(r.metadata)
    && form.now - r.metadata.timestamp <= l.timeToLive
    && form.manifest == Valid(r.manifest)
    && r.files == Firsts(form.files) && TypesAllowed(l, form.files)
    && |r.files| <= |r.manifest| <= |r.parcels| * l.parcelAssets
    && exists cid :: cid in r.files && IsSceneFile(r.files[cid]) && l.parcelsOf(r.files[cid].data) == Some(r.parcels)
  }

  /** A form that stands for a request, in plain terms: it is read with a scene.json
      whose parcels allow its manifest; nothing is missing, expired or not allowed. */
  lemma FormInPlainTerms(l: Limits, form: Form)
    ensures (exists r :: ParsesAs(l, form, r)) <==>
              && form.readable && form.complete && form.metadata.Valid? && form.manifest.Valid?
              && form.now <= form.metadata.value.timestamp + l.timeToLive
              && (forall cid :: cid in form.files ==>
                    && l.allowed(form.files[cid].first.contentType)
                    && forall f :: f in form.files[cid].more ==> l.allowed(f.contentType))
              && |form.files| <= |form.manifest.value|
              && exists cid :: && cid in form.files && form.files[cid].first.filename == "scene.json"
                               && l.parcelsOf(form.files[cid].first.data).Some?
                               && |form.manifest.value| <= |l.parcelsOf(form.files[cid].first.data).value| * l.parcelAssets
  {
    assert Firsts(form.files).Keys == form.files.Keys;
    if r :| ParsesAs(l, form, r) {
      var cid :| cid in r.files && IsSceneFile(r.files[cid]) && l.parcelsOf(r.files[cid].data) == Some(r.parcels);
      assert r.files[cid] == form.files[cid].first;
      assert forall c :: c in form.files ==> AllAllowed(l, form.files[c]);
    }
    if && form.readable && form.complete && form.metadata.Valid? && form.manifest.Valid?
       && form.now <= form.metadata.value.timestamp + l.timeToLive && TypesAllowed(l, form.files)
       && |form.files| <= |form.manifest.value| {
      hide TypesAllowed;
      if cid :| && cid in form.files && form.files[cid].first.filename == "scene.json"
                && l.parcelsOf(form.files[cid].first.data).Some?
                && |form.manifest.value| <= |l.parcelsOf(form.files[cid].first.data).value| * l.parcelAssets {
        var parcels := l.parcelsOf(form.files[cid].first.data).value;
        var r := Request(form.metadata.value, form.manifest.value, Firsts(form.files), parcels);
        assert r.files[cid] == form.files[cid].first;
        assert ParsesAs(l, form, r);
      }
    }
  }

  /** And the request is what the form holds, the first file of each field only. */
  lemma ParsedInPlainTerms(l: Limits, form: Form, r: Request)
    requires ParsesAs(l, form, r)
    ensures form.metadata == Valid(r.metadata) && form.manifest == Valid(r.manifest)
    ensures r.files.Keys == form.files.Keys && forall cid :: cid in form.files ==> r.files[cid] == form.files[cid].first
    ensures exists cid :: && cid in form.files && form.files[cid].first.filename == "scene.json"
                          && l.parcelsOf(form.files[cid].first.data) == Some(r.parcels)
  {
    hide TypesAllowed;
    var cid :| cid in r.files && IsSceneFile(r.files[cid]) && l.parcelsOf(r.files[cid].data) == Some(r.parcels);
    assert form.files[cid].first == r.files[cid];
  }

  predicate OneSceneFile(form: Form) {
    forall c, d :: c in form.files && d in form.files && IsSceneFile(form.files[c].first) && IsSceneFile(form.files[d].first) ==>
      c == d
  }

  method ValidateContentTypes(l: Limits, files: map<string, Headers>) returns (ok: bool)
    ensures ok <==> TypesAllowed(l, files)
  {
    var rest := files.Keys;
    while rest != {}
      invariant rest <= files.Keys
      invariant forall cid :: cid in files && cid !in rest ==> AllAllowed(l, files[cid])
      decreases rest
    {
      var cid :| cid in rest;
      var headers := [files[cid].first] + files[cid].more;
      var i := 0;
      while i < |headers|
        invariant 0 <= i <= |headers|
        invariant forall j :: 0 <= j < i ==> l.allowed(headers[j].contentType)
      {
        if !l.allowed(headers[i].contentType) {
          assert i > 0 ==> headers[i] in files[cid].more;
          return false;
        }
        i := i + 1;
      }
      assert headers[0] == files[cid].first;
      assert forall j :: 0 <= j < |files[cid].more| ==> files[cid].more[j] == headers[j + 1];
      rest := rest - {cid};
    }
    return true;
  }

  /** The scene file that the form is read with: some uploaded scene.json, or none
      if there is none. */
  predicate Picks(files: map<string, Headers>, scene: Option<FileHeader>) {
    match scene
    case Some(f) => exists cid :: cid in files && files[cid].first == f && IsSceneFile(f)
    case None => forall cid :: cid in files ==> !IsSceneFile(files[cid].first)
  }

  /** The parcels of the first scene.json met among the uploaded files, which come
      in no particular order. */
  method GetScene(l: Limits, files: map<string, Headers>) returns (parcels: Result<seq<string>, UploadError>)
    ensures parcels.Ok? ==> exists scene :: Picks(files, Some(scene)) && l.parcelsOf(scene.data) == Some(parcels.value)
    ensures parcels == Err(RequiredValue) <==> Picks(files, None)
    ensures parcels.Err? && parcels.error != RequiredValue ==>
              parcels.error == InvalidArgument && exists scene :: Picks(files, Some(scene)) && l.parcelsOf(scene.data).None?
  {
    var rest := files.Keys;
    while rest != {}
      invariant rest <= files.Keys
      invariant forall cid :: cid in files && cid !in rest ==> !IsSceneFile(files[cid].first)
      decreases rest
    {
      var cid :| cid in rest;
      if IsSceneFile(files[cid].first) {
        var read := l.parcelsOf(files[cid].first.data);
        assert Picks(files, Some(files[cid].first));
        return if read.None? then Err(InvalidArgument) else Ok(read.value);
      }
      rest := rest - {cid};
    }
    return Err(RequiredValue);
  }

  // ---------- what is wrong with a form ----------

  /** The metadata is there, well formed and not expired. */
  predicate MetadataInOrder(l: Limits, form: Form) {
    form.readable && form.metadata.Valid? && form.now - form.metadata.value.timestamp <= l.timeToLive
  }

  /** So is the manifest, and the files are allowed and no more than its entries. */
  predicate FilesInOrder(l: Limits, form: Form) {
    && MetadataInOrder(l, form) && form.manifest.Valid?
    && TypesAllowed(l, form.files) && |form.files| <= |form.manifest.value|
  }

  /** The scene file is readable and allows as many entries as there are. */
  predicate SceneInOrder(l: Limits, form: Form, scene: Option<FileHeader>) {
    && FilesInOrder(l, form) && scene.Some? && l.parcelsOf(scene.value.data).Some?
    && |form.manifest.value| <= |l.parcelsOf(scene.value.data).value| * l.parcelAssets
  }

  /** Something required is absent, and everything looked at before it is in order. */
  predicate LacksPart(l: Limits, form: Form, scene: Option<FileHeader>) {
    || (form.readable && form.metadata.Missing?)
    || (MetadataInOrder(l, form) && form.manifest.Missing?)
    || (FilesInOrder(l, form) && scene.None?)
    || (SceneInOrder(l, form, scene) && !form.complete)
  }

  /** Something present is wrong, and everything looked at before it is in order. */
  predicate HasWrongPart(l: Limits, form: Form, scene: Option<FileHeader>) {
    || (form.readable && !form.metadata.Missing? && !MetadataInOrder(l, form))
    || (MetadataInOrder(l, form) && !form.manifest.Missing? && !FilesInOrder(l, form))
    || (FilesInOrder(l, form) && scene.Some? && !SceneInOrder(l, form, scene))
  }

  /** Exactly one of these holds of a form, read with a given scene file. */
  lemma OneVerdict(l: Limits, form: Form, scene: Option<FileHeader>)
    requires Picks(form.files, scene)
    ensures !form.readable ==> !LacksPart(l, form, scene) && !HasWrongPart(l, form, scene)
    ensures !(LacksPart(l, form, scene) && HasWrongPart(l, form, scene))
    ensures form.readable && !LacksPart(l, form, scene) && !HasWrongPart(l, form, scene) ==>
              ParsesAs(l, form, Request(form.metadata.value, form.manifest.value, Firsts(form.files),
                                        l.parcelsOf(scene.value.data).value))
  {
    hide TypesAllowed;
    if SceneInOrder(l, form, scene) {
      var cid :| cid in form.files && form.files[cid].first == scene.value && IsSceneFile(scene.value);
      assert Firsts(form.files)[cid] == scene.value;
      assert Firsts(form.files).Keys == form.files.Keys;
    }
  }

  /** A form stands for a request exactly if it can be read with some scene file
      without lacking a part or having a wrong one. */
  lemma ParsesIff(l: Limits, form: Form)
    ensures (exists r :: ParsesAs(l, form, r)) <==>
            form.readable && exists scene ::
              Picks(form.files, scene) && !LacksPart(l, form, scene) && !HasWrongPart(l, form, scene)
  {
    if r :| ParsesAs(l, form, r) {
      hide TypesAllowed;
      var cid :| cid in r.files && IsSceneFile(r.files[cid]) && l.parcelsOf(r.files[cid].data) == Some(r.parcels);
      assert form.files[cid].first == r.files[cid];
      assert Firsts(form.files).Keys == form.files.Keys;
      assert Picks(form.files, Some(r.files[cid]));
      assert !LacksPart(l, form, Some(r.files[cid])) && !HasWrongPart(l, form, Some(r.files[cid]));
    }
    hide ParsesAs, LacksPart, HasWrongPart, Picks;
    if form.readable {
      if scene :| Picks(form.files, scene) && !LacksPart(l, form, scene) && !HasWrongPart(l, form, scene) {
        OneVerdict(l, form, scene);
      }
    }
  }

  lemma OnePick(form: Form, s: Option<FileHeader>, t: Option<FileHeader>)
    requires OneSceneFile(form) && Picks(form.files, s) && Picks(form.files, t)
    ensures s == t
  {
  }

  lemma SomePick(files: map<string, Headers>) returns (scene: Option<FileHeader>)
    ensures Picks(files, scene)
  {
    if cid :| cid in files && IsSceneFile(files[cid].first) {
      scene := Some(files[cid].first);
    } else {
      scene := None;
    }
  }

  /** What comes of reading the form with the given scene file. */
  predicate ReadAs(l: Limits, form: Form, scene: Option<FileHeader>, r: Result<Request, UploadError>) {
    match r
    case Ok(q) => ParsesAs(l, form, q) && !LacksPart(l, form, scene) && !HasWrongPart(l, form, scene)
    case Err(Unexpected) => !form.readable
    case Err(RequiredValue) => LacksPart(l, form, scene)
    case Err(InvalidArgument) => HasWrongPart(l, form, scene)
    case Err(_) => false
  }

  /** With one scene file there is one way to read the form. */
  lemma ReadOneWay(l: Limits, form: Form, scene: Option<FileHeader>, r: Result<Request, UploadError>)
    requires OneSceneFile(form) && Picks(form.files, scene) && ReadAs(l, form, scene, r)
    ensures forall other :: Picks(form.files, other) ==> ReadAs(l, form, other, r)
    ensures r.Ok? <==> exists q :: ParsesAs(l, form, q)
    ensures r == Err(Unexpected) <==> !form.readable
    ensures r == Err(RequiredValue) <==> LacksPart(l, form, scene)
    ensures r == Err(InvalidArgument) <==> HasWrongPart(l, form, scene)
  {
    ParsesIff(l, form);
    OneVerdict(l, form, scene);
    hide LacksPart, HasWrongPart, ParsesAs, Picks, OneSceneFile;
    forall other | Picks(form.files, other)
      ensures other == scene
    {
      OnePick(form, other, scene);
    }
  }

  /** Which error is returned depends, at most, on the scene file met first. */
  method ParseRequest(l: Limits, form: Form) returns (r: Result<Request, UploadError>)
    ensures exists scene :: Picks(form.files, scene) && ReadAs(l, form, scene, r)
    ensures r == Err(Unexpected) <==> !form.readable
    ensures form.readable && form.metadata.Missing? ==> r == Err(RequiredValue)
    ensures OneSceneFile(form) ==>
              forall scene :: Picks(form.files, scene) ==>
                && (r.Ok? <==> exists q :: ParsesAs(l, form, q))
                && (r == Err(RequiredValue) <==> LacksPart(l, form, scene))
                && (r == Err(InvalidArgument) <==> HasWrongPart(l, form, scene))
  {
    r := ReadForm(l, form);
    ghost var scene :| Picks(form.files, scene) && ReadAs(l, form, scene, r);
    assert r == Err(Unexpected) <==> !form.readable;
    assert form.readable && form.metadata.Missing? ==> r == Err(RequiredValue);
    hide LacksPart, HasWrongPart, ParsesAs, Picks, OneSceneFile, ReadAs;
    if OneSceneFile(form) {
      forall other | Picks(form.files, other)
        ensures other == scene
      {
        OnePick(form, other, scene);
      }
      ReadOneWay(l, form, scene, r);
    }
  }

  /** The checks of the form, in their order. */
  method ReadForm(l: Limits, form: Form) returns (r: Result<Request, UploadError>)
    ensures exists scene :: Picks(form.files, scene) && ReadAs(l, form, scene, r)
  {
    hide TypesAllowed, Picks;
    ghost var scene := SomePick(form.files);
    if !form.readable {
      return Err(Unexpected);
    }
    if !form.metadata.Valid? {
      return Err(if form.metadata.Missing? then RequiredValue else InvalidArgument);
    }
    var metadata := form.metadata.value;
    if form.now - metadata.timestamp > l.timeToLive {
      return Err(InvalidArgument);
    }
    if !form.manifest.Valid? {
      return Err(if form.manifest.Missing? then RequiredValue else InvalidArgument);
    }
    var manifest := form.manifest.value;
    var typesOk := ValidateContentTypes(l, form.files);
    if !typesOk {
      return Err(InvalidArgument);
    }
    if |form.files| > |manifest| {
      return Err(InvalidArgument);
    }
    var parcels := GetScene(l, form.files);
    if parcels == Err(RequiredValue) {
      return Err(RequiredValue);
    }
    if parcels.Err? {
      return Err(parcels.error);
    }
    ghost var read :| Picks(form.files, Some(read)) && l.parcelsOf(read.data) == Some(parcels.value);
    scene := Some(read);
    if |manifest| > |parcels.value| * l.parcelAssets {
      return Err(InvalidArgument);
    }
    var request := Request(metadata, manifest, Firsts(form.files), parcels.value);
    if !form.complete {
      return Err(RequiredValue);
    }
    OneVerdict(l, form, scene);
    return Ok(request);
  }

  const OK := 200
  const BAD_REQUEST := 400
  const UNAUTHORIZED := 401
  const INTERNAL_ERROR := 500

  function StatusOf(err: UploadError): int {
    match err
    case InvalidArgument => BAD_REQUEST
    case Unauthorized => UNAUTHORIZED
    case _ => INTERNAL_ERROR
  }

  /** Handle one upload. A request answered 400 or 401 leaves no trace; any trace
      is that of a request within the limits that the service accepts. A form that
      stands for no request is answered 400 exactly if a part of it is wrong, and
      500 exactly if it cannot be read or lacks a part. */
  method UploadContent(us: UploadService, l: Limits, env: Outside, form: Form) returns (status: int)
    modifies us, us.storage, us.redis
    ensures status in {OK, BAD_REQUEST, UNAUTHORIZED, INTERNAL_ERROR}
    ensures status in {BAD_REQUEST, UNAUTHORIZED} ==> us.Now() == old(us.Now())
    ensures status == OK ==>
              exists r :: && ParsesAs(l, form, r)
                          && Acceptable(us.h, us.parcelSizeLimit, env, old(us.storage.files), r)
                          && Committed(old(us.Now()), r, us.Now())
    ensures status == INTERNAL_ERROR && us.Now() != old(us.Now()) ==>
              exists r :: && ParsesAs(l, form, r)
                          && Acceptable(us.h, us.parcelSizeLimit, env, old(us.storage.files), r)
                          && Underway(old(us.Now()), r, us.Now())
    ensures us.Failures() == old(us.Failures()) && OneSceneFile(form) ==>
              forall r :: ParsesAs(l, form, r) ==>
                status == if Acceptable(us.h, us.parcelSizeLimit, env, old(us.storage.files), r) then OK
                          else StatusOf(Refusal(us.h, us.parcelSizeLimit, env, old(us.storage.files), r))
    ensures (forall r :: !ParsesAs(l, form, r)) ==>
              exists scene :: && Picks(form.files, scene)
                              && (status == BAD_REQUEST <==> HasWrongPart(l, form, scene))
                              && (status == INTERNAL_ERROR <==> !form.readable || LacksPart(l, form, scene))
    ensures status in {200, 400, 401, 500}
    ensures status in {200, 401} ==>
              && form.metadata.Valid?
              && var m := form.metadata.value;
                 if |m.signature| <= 150 then env.recovers(m.rootCid + "." + Print(m.timestamp), m.signature, m.pubKey)
                 else env.contractAccepts(m.value + "." + Print(m.timestamp), m.signature, m.pubKey) == Some(true)
    ensures forall r :: OneSceneFile(form) && ParsesAs(l, form, r) ==>
              var m := form.metadata.value;
              if |m.signature| <= 150 && !env.recovers(m.rootCid + "." + Print(m.timestamp), m.signature, m.pubKey) then
                status == 400
              else if |m.signature| > 150
                && env.contractAccepts(m.value + "." + Print(m.timestamp), m.signature, m.pubKey) != Some(true) then
                status == 500
              else
                status == 401 <==> FirstDenied(env.land, m.pubKey, r.parcels)
    ensures status == 401 ==> exists r :: ParsesAs(l, form, r) && FirstDenied(env.land, r.metadata.pubKey, r.parcels)
    ensures form.readable && form.metadata.Missing? ==> status == INTERNAL_ERROR
    ensures MetadataInOrder(l, form) && form.manifest.Missing? ==> status == INTERNAL_ERROR
    ensures FilesInOrder(l, form) && Picks(form.files, None) ==> status == INTERNAL_ERROR
    ensures !form.readable ==> status == 500
    ensures form.readable
            && (form.metadata.Malformed? || (form.metadata.Valid? && form.now > form.metadata.value.timestamp + l.timeToLive)) ==>
              status == 400
    ensures MetadataInOrder(l, form) && form.manifest.Malformed? ==> status == 400
    ensures MetadataInOrder(l, form) && form.manifest.Valid?
            && (|form.files| > |form.manifest.value|
                || exists cid :: cid in form.files && !l.allowed(form.files[cid].first.contentType)) ==>
              status == 400
    ensures FilesInOrder(l, form) && !Picks(form.files, None)
            && (forall cid :: cid in form.files && form.files[cid].first.filename == "scene.json" ==>
                  var parcels := l.parcelsOf(form.files[cid].first.data);
                  parcels.None? || |form.manifest.value| > |parcels.value| * l.parcelAssets) ==>
              status == 400
  {
    ParsedMetadata(l, form);
    hide Acceptable, Refusal, Committed, Underway, ParsesAs, OneSceneFile, FirstDenied;
    var parsed := ParseRequest(l, form);
    ghost var scene :| Picks(form.files, scene) && ReadAs(l, form, scene, parsed);
    OneVerdict(l, form, scene);
    if parsed.Err? {
      return if parsed.error == InvalidArgument then BAD_REQUEST else INTERNAL_ERROR;
    }
    var r := parsed.value;
    if OneSceneFile(form) {
      forall q | ParsesAs(l, form, q)
        ensures q == r
      {
        ParsesOneWay(l, form, q, r);
      }
    }
    SignedIfAcceptable(us.h, us.parcelSizeLimit, env, us.storage.files, r);
    var err := us.ProcessUpload(env, r);
    if err.Some? {
      return StatusOf(err.value);
    }
    return OK;
  }

  lemma ParsedMetadata(l: Limits, form: Form)
    ensures forall r :: ParsesAs(l, form, r) ==> form.metadata == Valid(r.metadata)
  {
  }

  lemma SignedIfAcceptable(h: Hashing, limit: int, env: Outside, store: Files, r: Request)
    ensures Acceptable(h, limit, env, store, r) ==>
              var m := r.metadata;
              if |m.signature| <= 150 then env.recovers(m.rootCid + "." + Print(m.timestamp), m.signature, m.pubKey)
              else env.contractAccepts(m.value + "." + Print(m.timestamp), m.signature, m.pubKey) == Some(true)
  {
    hide TreeOf, Estimate, Print;
  }

  lemma ParsesOneWay(l: Limits, form: Form, q: Request, r: Request)
    requires OneSceneFile(form) && ParsesAs(l, form, q) && ParsesAs(l, form, r)
    ensures q == r
  {
    assert forall c :: c in Firsts(form.files) ==> Firsts(form.files)[c] == form.files[c].first;
  }
}
