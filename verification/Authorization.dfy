/** data/authorization.go: may a key modify all of the given parcels? */
module Authorization {
  import opened ParcelId

  datatype Access = Granted | Denied | Failed

  /** The land service's answer for an address and the coordinates of a parcel. */
  type Land = (string, int, int) -> Access

  function Verdict(land: Land, key: string, parcel: string): Access {
    match Parse(parcel)
    case None => Failed
    case Some((x, y)) => land(key, x, y)
  }

  /** A parcel given by its coordinates is asked for under these, in this order. */
  lemma VerdictOfId(land: Land, key: string, x: int, y: int)
    requires Int64(x) && Int64(y)
    ensures Verdict(land, key, Id(x, y)) == land(key, x, y)
  {
    ParseOfId(x, y);
    hide Id, Parse;
  }

  predicate AllGranted(land: Land, key: string, parcels: seq<string>) {
    forall p :: p in parcels ==> Verdict(land, key, p) == Granted
  }

  /** The first parcel that is not granted was denied, not failed. */
  predicate FirstDenied(land: Land, key: string, parcels: seq<string>) {
    exists i :: 0 <= i < |parcels| && Verdict(land, key, parcels[i]) == Denied && AllGranted(land, key, parcels[..i])
  }

  lemma FirstIsFirst(land: Land, key: string, parcels: seq<string>, i: nat)
    requires i < |parcels| && AllGranted(land, key, parcels[..i]) && Verdict(land, key, parcels[i]) != Granted
    ensures !AllGranted(land, key, parcels)
    ensures FirstDenied(land, key, parcels) <==> Verdict(land, key, parcels[i]) == Denied
  {
    hide Verdict;
    assert parcels[i] in parcels;
    if FirstDenied(land, key, parcels) {
      var j :| 0 <= j < |parcels| && Verdict(land, key, parcels[j]) == Denied && AllGranted(land, key, parcels[..j]);
      assert i < j ==> parcels[i] in parcels[..j];
      assert j < i ==> parcels[j] in parcels[..i];
    }
  }

  /** The land service granted the parcel, if it is one given by its coordinates. */
  ghost predicate GrantedAt(land: Land, key: string, p: string) {
    forall x, y :: Int64(x) && Int64(y) && p == Id(x, y) ==> land(key, x, y) == Granted
  }

  lemma GrantedIsAt(land: Land, key: string, p: string)
    requires Verdict(land, key, p) == Granted
    ensures GrantedAt(land, key, p) && ',' in p
  {
    hide Id, Verdict;
    forall x, y | Int64(x) && Int64(y) && p == Id(x, y)
      ensures land(key, x, y) == Granted
    {
      VerdictOfId(land, key, x, y);
    }
    NoCommaFails(land, key, p);
  }

  lemma NoCommaFails(land: Land, key: string, p: string)
    ensures ',' !in p ==> Verdict(land, key, p) == Failed
  {
    if ',' !in p {
      NoComma(p);
    }
    hide Parse;
  }

  /** Granted exactly when there are parcels and all are granted; denied exactly
      when the first parcel that is not granted was denied. */
  method UserCanModifyParcels(land: Land, key: string, parcels: seq<string>) returns (r: Access)
    ensures r == Granted <==> parcels != [] && AllGranted(land, key, parcels)
    ensures r == Denied <==> FirstDenied(land, key, parcels)
    ensures r == Granted ==> forall p :: p in parcels ==> GrantedAt(land, key, p)
    ensures forall x, y :: Int64(x) && Int64(y) && parcels == [Id(x, y)] ==> r == land(key, x, y)
    ensures forall i, x, y :: 0 <= i < |parcels| && Int64(x) && Int64(y) && parcels[i] == Id(x, y) ==>
              land(key, x, y) != Granted && AllGranted(land, key, parcels[..i]) ==> r == land(key, x, y)
    ensures parcels == [] || (exists p :: p in parcels && ',' !in p) ==> r != Granted
  {
    hide Verdict, Id, GrantedAt, Int64;
    forall p | p in parcels && Verdict(land, key, p) == Granted
      ensures GrantedAt(land, key, p) && ',' in p
    {
      GrantedIsAt(land, key, p);
    }
    forall i, x, y | 0 <= i < |parcels| && Int64(x) && Int64(y) && parcels[i] == Id(x, y)
      ensures Verdict(land, key, parcels[i]) == land(key, x, y)
    {
      VerdictOfId(land, key, x, y);
    }
    assert forall x, y :: parcels == [Id(x, y)] ==> parcels[0] == Id(x, y);
    if |parcels| == 0 {
      return Failed;
    }
    var i := 0;
    while i < |parcels|
      invariant 0 <= i <= |parcels|
      invariant AllGranted(land, key, parcels[..i])
    {
      var verdict := CheckParcel(land, key, parcels[i]);
      if verdict != Granted {
        FirstIsFirst(land, key, parcels, i);
        return verdict;
      }
      i := i + 1;
    }
    assert parcels[..i] == parcels;
    return Granted;
  }

  /** One turn of the loop: parse the coordinates, then ask the land service. */
  method CheckParcel(land: Land, key: string, parcel: string) returns (r: Access)
    ensures r == Verdict(land, key, parcel)
    ensures forall x, y :: Int64(x) && Int64(y) && parcel == Id(x, y) ==> r == land(key, x, y)
  {
    assert forall x, y :: Int64(x) && Int64(y) && parcel == Id(x, y) ==> Verdict(land, key, parcel) == land(key, x, y) by {
      forall x, y | Int64(x) && Int64(y) && parcel == Id(x, y)
        ensures Verdict(land, key, parcel) == land(key, x, y)
      {
        VerdictOfId(land, key, x, y);
      }
    }
    hide Id;
    var tokens := Split(parcel);
    if |tokens| != 2 {
      return Failed;
    }
    var x := ParseInt(tokens[0]);
    if x.None? {
      return Failed;
    }
    var y := ParseInt(tokens[1]);
    if y.None? {
      return Failed;
    }
    return land(key, x.value, y.value);
  }
}
