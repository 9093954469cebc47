/** The single Redis keyspace, and why the index may be read as separate maps:
    the key prefixes of data/redis.go, the form of parcel ids and the form of
    CIDs keep the families of keys apart. */
module Keyspace {
  import opened Results
  import opened ParcelId
  import opened SceneIndex

  // ---------- Redis ----------

  datatype Entry =
    | StrEntry(text: string)
    | ListEntry(items: seq<string>)
    | SetEntry(members: set<string>)
    | HashEntry(fields: Fields)

  type Db = map<string, Entry>

  datatype Operation =
    | GET
    | SET(text: string)
    | DEL
    | LPUSH(items: seq<string>)
    | LRANGE
    | SADD(member: string)
    | SISMEMBER(member: string)
    | HMSET(fields: Fields)
    | HGETALL

  datatype FlatCommand = FlatCommand(key: string, op: Operation)

  datatype FlatReply = Plain(reply: Reply) | WrongType

  function Slot(db: Db, key: string): Option<Entry> {
    if key in db then Some(db[key]) else None
  }

  /** Each item in turn becomes the new head of the list. */
  function PushEach(list: seq<string>, items: seq<string>): seq<string>
    decreases items
  {
    if items == [] then list else PushEach([items[0]] + list, items[1..])
  }

  lemma {:induction false} PushEachReverses(list: seq<string>, items: seq<string>)
    ensures PushEach(list, items) == Reverse(items) + list
    decreases items
  {
    if items == [] {
    } else {
      PushEachReverses([items[0]] + list, items[1..]);
      assert Reverse(items[1..]) + ([items[0]] + list) == Reverse(items) + list;
    }
  }

  /** An operation on the value of its key: refused on a value of another type,
      except for SET and DEL; a missing key is an empty value. */
  function Apply(slot: Option<Entry>, op: Operation): (Option<Entry>, FlatReply) {
    match (op, slot)
    case (GET, None) => (slot, Plain(Text(None)))
    case (GET, Some(StrEntry(text))) => (slot, Plain(Text(Some(text))))
    case (SET(text), _) => (Some(StrEntry(text)), Plain(Done))
    case (DEL, _) => (None, Plain(Done))
    case (LPUSH(items), None) => (Some(ListEntry(PushEach([], items))), Plain(Done))
    case (LPUSH(items), Some(ListEntry(tail))) => (Some(ListEntry(PushEach(tail, items))), Plain(Done))
    case (LRANGE, None) => (slot, Plain(Texts([])))
    case (LRANGE, Some(ListEntry(items))) => (slot, Plain(Texts(items)))
    case (SADD(m), None) => (Some(SetEntry({m})), Plain(Done))
    case (SADD(m), Some(SetEntry(ms))) => (Some(SetEntry(ms + {m})), Plain(Done))
    case (SISMEMBER(_), None) => (slot, Plain(Flag(false)))
    case (SISMEMBER(m), Some(SetEntry(members))) => (slot, Plain(Flag(m in members)))
    case (HMSET(fields), None) => (Some(HashEntry(fields)), Plain(Done))
    case (HMSET(fields), Some(HashEntry(fs))) => (Some(HashEntry(fs + fields)), Plain(Done))
    case (HGETALL, None) => (slot, Plain(Hash(map[])))
    case (HGETALL, Some(HashEntry(fields))) => (slot, Plain(Hash(fields)))
    case _ => (slot, WrongType)
  }

  function Execute(db: Db, c: FlatCommand): (Db, FlatReply) {
    var (slot, reply) := Apply(Slot(db, c.key), c.op);
    (if slot.None? then db - {c.key} else db[c.key := slot.value], reply)
  }

  // ---------- the keys of data/redis.go ----------

  const UPLOADED_KEY := "uploaded-content"
  const PROCESSED_KEY := "processedSet"
  const METADATA_PREFIX := "metadata_"
  const CONTENT_PREFIX := "content_"
  const ROOT_SCENE_PREFIX := "root-scene:"

  datatype Address =
    | ParcelAt(pid: string)
    | SceneAt(cid: string)
    | UploadedAt
    | ProcessedAt
    | ContentAt(root: string)
    | MetadataAt(root: string)
    | LinkAt(end: string)

  function KeyOf(a: Address): string {
    match a
    case ParcelAt(p) => p
    case SceneAt(cid) => cid
    case UploadedAt => UPLOADED_KEY
    case ProcessedAt => PROCESSED_KEY
    case ContentAt(root) => CONTENT_PREFIX + root
    case MetadataAt(root) => METADATA_PREFIX + root
    case LinkAt(end) => ROOT_SCENE_PREFIX + end
  }

  function Encode(c: Command): (Address, Operation) {
    match c
    case GetParcel(p) => (ParcelAt(p), GET)
    case SetParcel(p, cid) => (ParcelAt(p), SET(cid))
    case DelScene(cid) => (SceneAt(cid), DEL)
    case PushScene(cid, pids) => (SceneAt(cid), LPUSH(pids))
    case RangeScene(cid) => (SceneAt(cid), LRANGE)
    case AddProcessed(p) => (ProcessedAt, SADD(p))
    case IsProcessed(p) => (ProcessedAt, SISMEMBER(p))
    case AddUploaded(cid) => (UploadedAt, SADD(cid))
    case IsUploaded(cid) => (UploadedAt, SISMEMBER(cid))
    case SetContent(root, name, cid) => (ContentAt(root), HMSET(map[name := cid]))
    case GetContent(root) => (ContentAt(root), HGETALL)
    case SetMetadata(root, fields) => (MetadataAt(root), HMSET(fields))
    case GetMetadata(root) => (MetadataAt(root), HGETALL)
    case SetRootScene(end, cid) => (LinkAt(end), SET(cid))
    case GetRootScene(end) => (LinkAt(end), GET)
  }

  function Flat(c: Command): FlatCommand {
    FlatCommand(KeyOf(Encode(c).0), Encode(c).1)
  }

  /** A parcel id the authorization service accepts. */
  predicate IsParcelId(p: string) {
    Parse(p).Some?
  }

  predicate IsCid(c: string) {
    |c| == 46 && c[..2] == "Qm"
  }

  /** What is asked of keys that carry no prefix. */
  predicate WellKeyed(a: Address) {
    match a
    case ParcelAt(p) => IsParcelId(p)
    case SceneAt(cid) => cid == "" || IsCid(cid)
    case _ => true
  }

  /** Empty pushes and empty hashes are refused by Redis and never issued; no
      scene has the empty CID, though the empty key may be deleted and read. */
  predicate WellFormed(c: Command) {
    && WellKeyed(Encode(c).0)
    && (c.PushScene? ==> c.pids != [] && c.cid != "")
    && (c.SetMetadata? ==> c.fields != map[])
  }

  lemma ParcelKeyStart(p: string)
    requires IsParcelId(p)
    ensures p != "" && ('0' <= p[0] <= '9' || p[0] == '+' || p[0] == '-')
  {
    if ',' in p {
      assert Split(p)[0] == p[..IndexOfComma(p)];
    }
  }

  datatype Family = Parcels | Scenes | Uploaded | Processed | Contents | Metadatas | Links | Other

  function FamilyOf(key: string): Family {
    if key == "" then Scenes
    else match key[0]
      case 'Q' => Scenes
      case 'u' => Uploaded
      case 'p' => Processed
      case 'c' => Contents
      case 'm' => Metadatas
      case 'r' => Links
      case ch => if '0' <= ch <= '9' || ch == '+' || ch == '-' then Parcels else Other
  }

  /** The first character of a key tells its family. */
  lemma FamilyOfKey(a: Address)
    requires WellKeyed(a)
    ensures FamilyOf(KeyOf(a)) ==
            match a {
              case ParcelAt(_) => Parcels
              case SceneAt(_) => Scenes
              case UploadedAt => Uploaded
              case ProcessedAt => Processed
              case ContentAt(_) => Contents
              case MetadataAt(_) => Metadatas
              case LinkAt(_) => Links
            }
  {
    hide IsParcelId;
    if a.ParcelAt? {
      ParcelKeyStart(a.pid);
    } else if a.SceneAt? && a.cid != "" {
      assert a.cid[0] == a.cid[..2][0];
    }
  }

  lemma PrefixInjective(prefix: string, x: string, y: string)
    requires prefix + x == prefix + y
    ensures x == y
  {
    assert x == (prefix + x)[|prefix|..];
    assert y == (prefix + y)[|prefix|..];
  }

  /** Different addresses have different keys. */
  lemma KeysApart(a: Address, b: Address)
    requires WellKeyed(a) && WellKeyed(b) && KeyOf(a) == KeyOf(b)
    ensures a == b
  {
    FamilyOfKey(a);
    FamilyOfKey(b);
    hide FamilyOf, WellKeyed;
    match (a, b)
    case (ContentAt(x), ContentAt(y)) => PrefixInjective(CONTENT_PREFIX, x, y);
    case (MetadataAt(x), MetadataAt(y)) => PrefixInjective(METADATA_PREFIX, x, y);
    case (LinkAt(x), LinkAt(y)) => PrefixInjective(ROOT_SCENE_PREFIX, x, y);
    case _ =>
  }

  // ---------- refinement ----------

  /** What the index says is stored at an address. */
  function Expected(ix: Index, a: Address): Option<Entry> {
    match a
    case ParcelAt(p) => if p in ix.parcelCid then Some(StrEntry(ix.parcelCid[p])) else None
    case SceneAt(cid) => if ListOf(ix, cid) == [] then None else Some(ListEntry(ListOf(ix, cid)))
    case UploadedAt => if ix.uploaded == {} then None else Some(SetEntry(ix.uploaded))
    case ProcessedAt => if ix.processed == {} then None else Some(SetEntry(ix.processed))
    case ContentAt(root) => if root in ix.content then Some(HashEntry(ix.content[root])) else None
    case MetadataAt(root) => if root in ix.metadata then Some(HashEntry(ix.metadata[root])) else None
    case LinkAt(end) => if end in ix.rootScene then Some(StrEntry(ix.rootScene[end])) else None
  }

  ghost predicate Represents(db: Db, ix: Index) {
    forall a :: WellKeyed(a) ==> Slot(db, KeyOf(a)) == Expected(ix, a)
  }

  predicate Reads(c: Command) {
    c.GetParcel? || c.RangeScene? || c.IsProcessed? || c.IsUploaded? || c.GetContent? || c.GetMetadata? || c.GetRootScene?
  }

  lemma SameRead(ix: Index, c: Command)
    requires Reads(c)
    ensures Apply(Expected(ix, Encode(c).0), Encode(c).1) == (Expected(ix, Encode(c).0), Plain(Answer(ix, c)))
    ensures Step(ix, c) == ix
  {
    hide Reverse;
  }

  lemma SameWrite(ix: Index, c: Command)
    requires WellFormed(c) && !Reads(c)
    ensures var (a, op) := Encode(c);
            Apply(Expected(ix, a), op) == (Expected(Step(ix, c), a), Plain(Answer(ix, c)))
  {
    if c.PushScene? || c.SetContent? || c.SetMetadata? {
      SameCollectionWrite(ix, c);
    } else {
      hide IsParcelId, IsCid, Reverse, PushEach, Push, HashOf, ListOf;
      match c
      case AddUploaded(cid) => assert {} + {cid} == {cid};
      case AddProcessed(p) => assert {} + {p} == {p};
      case _ =>
    }
  }

  lemma SameCollectionWrite(ix: Index, c: Command)
    requires WellFormed(c) && (c.PushScene? || c.SetContent? || c.SetMetadata?)
    ensures var (a, op) := Encode(c);
            Apply(Expected(ix, a), op) == (Expected(Step(ix, c), a), Plain(Answer(ix, c)))
  {
    hide IsParcelId, IsCid, Reverse, PushEach;
    match c
    case PushScene(cid, pids) => SamePush(ix, cid, pids);
    case SetContent(root, name, cid) => SameHash(HashOf(ix.content, root), name, cid);
    case SetMetadata(_, fields) => assert map[] + fields == fields;
  }

  /** At the address a command names, keyspace and index do the same. */
  lemma SameAtAddress(ix: Index, c: Command)
    requires WellFormed(c)
    ensures var (a, op) := Encode(c);
            Apply(Expected(ix, a), op) == (Expected(Step(ix, c), a), Plain(Answer(ix, c)))
  {
    hide WellFormed, Apply, Expected, Encode, Answer, Step, Reads;
    if Reads(c) {
      SameRead(ix, c);
    } else {
      SameWrite(ix, c);
    }
  }

  lemma SamePush(ix: Index, cid: string, pids: seq<string>)
    requires pids != []
    ensures Apply(Expected(ix, SceneAt(cid)), LPUSH(pids))
            == (Expected(Step(ix, PushScene(cid, pids)), SceneAt(cid)), Plain(Done))
  {
    PushEachReverses(ListOf(ix, cid), pids);
    hide Reverse, PushEach;
    assert |Reverse(pids)| == |pids|;
    assert Reverse(pids) + [] == Reverse(pids);
  }

  lemma SameHash(fields: Fields, name: string, cid: string)
    ensures fields + map[name := cid] == fields[name := cid]
    ensures map[][name := cid] == map[name := cid]
  {
  }

  lemma SameElsewhere(ix: Index, c: Command, a: Address)
    requires a != Encode(c).0
    ensures Expected(Step(ix, c), a) == Expected(ix, a)
  {
    hide Reverse;
  }

  /** One command on the keyspace is the same command on the index: the same
      reply, never refused for its type, and the same effect. */
  lemma CommandRefines(db: Db, ix: Index, c: Command)
    requires Represents(db, ix) && WellFormed(c)
    ensures Execute(db, Flat(c)).1 == Plain(Answer(ix, c))
    ensures Represents(Execute(db, Flat(c)).0, Step(ix, c))
  {
    var here := Encode(c).0;
    var db' := Execute(db, Flat(c)).0;
    SameAtAddress(ix, c);
    forall a | WellKeyed(a)
      ensures Slot(db', KeyOf(a)) == Expected(Step(ix, c), a)
    {
      hide WellKeyed, Step, Expected, Encode, KeyOf, Answer, Apply;
      if a != here {
        SameElsewhere(ix, c, a);
        if KeyOf(a) == KeyOf(here) {
          KeysApart(a, here);
        }
      }
    }
  }

  // ---------- runs ----------

  function IndexRun(ix: Index, cs: seq<Command>): (r: (Index, seq<Reply>))
    ensures |r.1| == |cs|
    decreases |cs|
  {
    if cs == [] then (ix, [])
    else
      var (ix', replies) := IndexRun(Step(ix, cs[0]), cs[1..]);
      (ix', [Answer(ix, cs[0])] + replies)
  }

  function KeyspaceRun(db: Db, cs: seq<Command>): (r: (Db, seq<FlatReply>))
    ensures |r.1| == |cs|
    decreases |cs|
  {
    if cs == [] then (db, [])
    else
      var (here, reply) := Execute(db, Flat(cs[0]));
      var (db', replies) := KeyspaceRun(here, cs[1..]);
      (db', [reply] + replies)
  }

  /** Every sequence of well-formed commands has on the keyspace the replies and
      the effect it has on the separate maps. */
  lemma {:induction false} RunRefines(db: Db, ix: Index, cs: seq<Command>)
    requires Represents(db, ix)
    requires forall i :: 0 <= i < |cs| ==> WellFormed(cs[i])
    ensures Represents(KeyspaceRun(db, cs).0, IndexRun(ix, cs).0)
    ensures forall i :: 0 <= i < |cs| ==> KeyspaceRun(db, cs).1[i] == Plain(IndexRun(ix, cs).1[i])
    decreases |cs|
  {
    hide Represents, WellFormed, Execute, Step, Answer, Flat;
    if cs == [] {
    } else {
      CommandRefines(db, ix, cs[0]);
      RunRefines(Execute(db, Flat(cs[0])).0, Step(ix, cs[0]), cs[1..]);
    }
  }

  // ---------- SetSceneParcels on the keyspace ----------

  function Gets(pids: seq<string>): seq<Command> {
    seq(|pids|, i requires 0 <= i < |pids| => GetParcel(pids[i]))
  }

  function Dels(cids: seq<string>): seq<Command> {
    seq(|cids|, i requires 0 <= i < |cids| => DelScene(cids[i]))
  }

  function Sets(scene: string, pids: seq<string>): seq<Command> {
    seq(|pids|, i requires 0 <= i < |pids| => SetParcel(pids[i], scene))
  }

  /** The commands of a call that meets no failure, when it deletes in the given order. */
  function SceneCommands(scene: string, pids: seq<string>, order: seq<string>): seq<Command> {
    Gets(pids) + (Dels(order) + ([PushScene(scene, pids)] + Sets(scene, pids)))
  }

  lemma {:induction false} RunAppend(ix: Index, a: seq<Command>, b: seq<Command>)
    ensures IndexRun(ix, a + b).0 == IndexRun(IndexRun(ix, a).0, b).0
    ensures IndexRun(ix, a + b).1 == IndexRun(ix, a).1 + IndexRun(IndexRun(ix, a).0, b).1
    decreases |a|
  {
    hide Step, Answer;
    if a == [] {
      assert a + b == b;
    } else {
      assert (a + b)[1..] == a[1..] + b;
      RunAppend(Step(ix, a[0]), a[1..], b);
    }
  }

  lemma {:induction false} RunGets(ix: Index, pids: seq<string>)
    ensures IndexRun(ix, Gets(pids)).0 == ix
    ensures forall i :: 0 <= i < |pids| ==>
              IndexRun(ix, Gets(pids)).1[i] == Text(Lookup(ix.parcelCid, pids[i]))
  {
    if pids == [] {
    } else {
      assert Gets(pids)[1..] == Gets(pids[1..]);
      RunGets(ix, pids[1..]);
    }
  }

  lemma {:induction false} RunDels(ix: Index, cids: seq<string>)
    ensures IndexRun(ix, Dels(cids)).0 == ix.(sceneParcels := ix.sceneParcels - set c | c in cids)
    decreases |cids|
  {
    if cids != [] {
      assert Dels(cids)[1..] == Dels(cids[1..]);
      RunDels(Step(ix, DelScene(cids[0])), cids[1..]);
      assert ix.sceneParcels - {cids[0]} - (set c | c in cids[1..]) == ix.sceneParcels - set c | c in cids;
    } else {
      assert ix.sceneParcels - {} == ix.sceneParcels;
    }
  }

  lemma RepointCons(m: map<string, string>, scene: string, pids: seq<string>)
    ensures pids == [] ==> Repoint(m, scene, pids) == m
    ensures pids != [] ==> Repoint(m[pids[0] := scene], scene, pids[1..]) == Repoint(m, scene, pids)
  {
  }

  lemma {:induction false} RunSets(ix: Index, scene: string, pids: seq<string>)
    ensures IndexRun(ix, Sets(scene, pids)).0 == ix.(parcelCid := Repoint(ix.parcelCid, scene, pids))
    decreases |pids|
  {
    hide Repoint;
    RepointCons(ix.parcelCid, scene, pids);
    if pids == [] {
    } else {
      assert Sets(scene, pids)[1..] == Sets(scene, pids[1..]);
      RunSets(Step(ix, SetParcel(pids[0], scene)), scene, pids[1..]);
    }
  }

  /** The commands amount to SetScene for every order of deletion. */
  lemma SceneCommandsAreSetScene(ix: Index, scene: string, pids: seq<string>, order: seq<string>)
    requires (set c | c in order) == Owners(ix, pids)
    ensures IndexRun(ix, SceneCommands(scene, pids, order)).0 == SetScene(ix, scene, pids)
  {
    var sets := Sets(scene, pids);
    var push := [PushScene(scene, pids)];
    RunGets(ix, pids);
    RunAppend(ix, Gets(pids), Dels(order) + (push + sets));
    RunDels(ix, order);
    RunAppend(ix, Dels(order), push + sets);
    var cleared := IndexRun(ix, Dels(order)).0;
    assert (push + sets)[1..] == sets;
    RunSets(Step(cleared, push[0]), scene, pids);
    assert pids[..|pids|] == pids;
  }

  lemma SceneCommandsReadOwners(ix: Index, scene: string, pids: seq<string>, order: seq<string>)
    ensures |SceneCommands(scene, pids, order)| > |pids|
    ensures forall i :: 0 <= i < |pids| ==>
              IndexRun(ix, SceneCommands(scene, pids, order)).1[i] == Text(Lookup(ix.parcelCid, pids[i]))
  {
    hide IndexRun, Lookup;
    RunGets(ix, pids);
    RunAppend(ix, Gets(pids), Dels(order) + ([PushScene(scene, pids)] + Sets(scene, pids)));
  }

  lemma SceneCommandsWellFormed(ix: Index, scene: string, pids: seq<string>, order: seq<string>)
    requires IsCid(scene) && pids != [] && (forall p :: p in pids ==> IsParcelId(p))
    requires forall p :: p in ix.parcelCid ==> IsCid(ix.parcelCid[p])
    requires (set c | c in order) == Owners(ix, pids)
    ensures forall i :: 0 <= i < |SceneCommands(scene, pids, order)| ==>
              WellFormed(SceneCommands(scene, pids, order)[i])
  {
    hide IsParcelId, IsCid;
    forall c | c in order
      ensures c == "" || IsCid(c)
    {
      assert c in Owners(ix, pids);
    }
    assert IsCid(scene) ==> scene != "" by { NotEmpty(scene); }
    forall c | c in SceneCommands(scene, pids, order)
      ensures WellFormed(c)
    {
      assert c in Gets(pids) || c in Dels(order) || c == PushScene(scene, pids) || c in Sets(scene, pids);
    }
  }

  lemma NotEmpty(c: string)
    ensures IsCid(c) ==> c != ""
  {
  }

  /** SetSceneParcels on the one keyspace: if parcel ids and CIDs have their form,
      the call reads the owners the index has and leaves the keyspace holding the
      index after the call. */
  lemma SetSceneOnKeyspace(db: Db, ix: Index, scene: string, pids: seq<string>, order: seq<string>)
    requires Represents(db, ix)
    requires IsCid(scene) && pids != [] && (forall p :: p in pids ==> IsParcelId(p))
    requires forall p :: p in ix.parcelCid ==> IsCid(ix.parcelCid[p])
    requires (set c | c in order) == Owners(ix, pids)
    ensures Represents(KeyspaceRun(db, SceneCommands(scene, pids, order)).0, SetScene(ix, scene, pids))
    ensures forall i :: 0 <= i < |pids| ==>
              KeyspaceRun(db, SceneCommands(scene, pids, order)).1[i] == Plain(Text(Lookup(ix.parcelCid, pids[i])))
    ensures WrongType !in KeyspaceRun(db, SceneCommands(scene, pids, order)).1
  {
    hide IsParcelId, IsCid, Represents, SetScene, Owners, KeyspaceRun, IndexRun, SceneCommands, WellFormed, Lookup;
    var cs := SceneCommands(scene, pids, order);
    SceneCommandsWellFormed(ix, scene, pids, order);
    RunRefines(db, ix, cs);
    SceneCommandsAreSetScene(ix, scene, pids, order);
    SceneCommandsReadOwners(ix, scene, pids, order);
  }

  lemma EmptyIsRepresented()
    ensures Represents(map[], EMPTY_INDEX)
  {
    hide WellKeyed, KeyOf;
  }

  /** The premise is needed: once a root CID that is also a parcel id has a list,
      the keyspace refuses to read the parcel, which the separate maps do not know. */
  lemma KeysCanCollide(id: string, pids: seq<string>)
    requires pids != []
    ensures var push, read := PushScene(id, pids), GetParcel(id);
            && Execute(Execute(map[], Flat(push)).0, Flat(read)).1 == WrongType
            && Answer(Step(EMPTY_INDEX, push), read) == Text(None)
  {
  }

  /** The keys as they are written in Redis, for every id and CID. */
  lemma KeyTexts(x: string)
    ensures Flat(GetParcel(x)) == FlatCommand(x, GET) && Flat(RangeScene(x)) == FlatCommand(x, LRANGE)
    ensures Flat(GetContent(x)) == FlatCommand("content_" + x, HGETALL)
    ensures Flat(GetMetadata(x)) == FlatCommand("metadata_" + x, HGETALL)
    ensures Flat(GetRootScene(x)) == FlatCommand("root-scene:" + x, GET)
    ensures Flat(IsProcessed(x)) == FlatCommand("processedSet", SISMEMBER(x))
    ensures Flat(IsUploaded(x)) == FlatCommand("uploaded-content", SISMEMBER(x))
  {
  }
}
