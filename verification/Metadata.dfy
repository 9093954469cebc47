/** Scene metadata: the record an upload carries, the hash it is stored as, and
    the typed map GetParcelMetadata makes of that hash. */
module Metadata {
  import opened Results
  import opened ParcelId
  import opened SceneIndex

  datatype Metadata = Metadata(
    value: string,
    signature: string,
    validity: string,
    validityType: int64,
    sequence: int64,
    pubKey: string,
    rootCid: string,
    timestamp: int64)

  datatype Value = Str(text: string) | Num(number: int)

  /** The names and texts written by HMSET. The name of the first field ends in a
      blank, as its tag does in the program. */
  function FieldsOf(m: Metadata): Fields {
    map["value " := m.value, "signature" := m.signature, "validity" := m.validity,
        "validityType" := Print(m.validityType), "sequence" := Print(m.sequence),
        "pubkey" := m.pubKey, "root_cid" := m.rootCid, "timestamp" := Print(m.timestamp)]
  }

  function ValuesOf(m: Metadata): map<string, Value> {
    map["value " := Str(m.value), "signature" := Str(m.signature), "validity" := Str(m.validity),
        "validityType" := Num(m.validityType), "sequence" := Num(m.sequence),
        "pubkey" := Str(m.pubKey), "root_cid" := Str(m.rootCid), "timestamp" := Num(m.timestamp)]
  }

  predicate IsNumeric(key: string) {
    key in {"validityType", "sequence", "timestamp"}
  }

  function Convert(key: string, value: string): Option<Value> {
    if !IsNumeric(key) then Some(Str(value))
    else match ParseInt(value)
      case Some(n) => Some(Num(n))
      case None => None
  }

  function Typed(fields: Fields): Option<map<string, Value>> {
    if forall k | k in fields :: Convert(k, fields[k]).Some?
    then Some(map k | k in fields :: Convert(k, fields[k]).value)
    else None
  }

  /** Stored metadata always converts back, to the values that were stored. */
  lemma TypedOfFields(m: Metadata)
    ensures Typed(FieldsOf(m)) == Some(ValuesOf(m))
  {
    hide Print, ParseInt;
    ParseIntOfPrint(m.validityType);
    ParseIntOfPrint(m.sequence);
    ParseIntOfPrint(m.timestamp);
    var fields := FieldsOf(m);
    var typed := ValuesOf(m);
    assert forall k :: k in fields ==> Convert(k, fields[k]) == Some(typed[k]);
    assert Typed(fields).value == typed;
  }

  /** The three numeric fields are read as numbers, all others as text; one numeric
      field that is not a number makes the whole record unreadable. */
  lemma TypedInPlainTerms(fields: Fields)
    ensures Typed(fields).None? <==>
              exists k :: k in fields && k in {"validityType", "sequence", "timestamp"} && ParseInt(fields[k]) == None
    ensures Typed(fields).Some? ==> Typed(fields).value.Keys == fields.Keys
    ensures Typed(fields).Some? ==>
              forall k :: k in fields ==>
                Typed(fields).value[k] == if k in {"validityType", "sequence", "timestamp"} then Num(ParseInt(fields[k]).value)
                                          else Str(fields[k])
  {
    hide ParseInt;
    forall k | k in fields
      ensures Convert(k, fields[k]).None? <==> k in {"validityType", "sequence", "timestamp"} && ParseInt(fields[k]) == None
    {
    }
  }
}
