/** utils/misc.go: the parcels of a rectangle. */
module Rectangle {
  import opened Results
  import opened ParcelId

  function Min(x: int, y: int): int { if x < y then x else y }

  function Max(x: int, y: int): int { if x < y then y else x }

  function Area(x1: int, y1: int, x2: int, y2: int): int {
    (Max(x1, x2) - Min(x1, x2) + 1) * (Max(y1, y2) - Min(y1, y2) + 1)
  }

  function Distance(x: int, y: int): nat { if x < y then y - x else x - y }

  predicate Inside(x: int, y: int, x1: int, y1: int, x2: int, y2: int) {
    Min(x1, x2) <= x <= Max(x1, x2) && Min(y1, y2) <= y <= Max(y1, y2)
  }

  /** The parcels of column x from row ya up to, not including, row yb. */
  function Column(x: int, ya: int, yb: int): seq<string>
    requires ya <= yb
    decreases yb - ya
  {
    if ya == yb then [] else Column(x, ya, yb - 1) + [Id(x, yb - 1)]
  }

  /** The columns from xa up to, not including, xb. */
  function Grid(xa: int, xb: int, ya: int, yb: int): seq<string>
    requires xa <= xb && ya <= yb
    decreases xb - xa
  {
    if xa == xb then [] else Grid(xa, xb - 1, ya, yb) + Column(xb - 1, ya, yb)
  }

  /** The identifiers of the rectangle with the given opposite corners. */
  function Ids(x1: int, y1: int, x2: int, y2: int): seq<string> {
    Grid(Min(x1, x2), Max(x1, x2) + 1, Min(y1, y2), Max(y1, y2) + 1)
  }

  method RectToParcels(x1: int, y1: int, x2: int, y2: int, max: int) returns (ids: Option<seq<string>>)
    ensures ids == if Area(x1, y1, x2, y2) > max then None else Some(Ids(x1, y1, x2, y2))
    ensures ids.None? <==> (Distance(x1, x2) + 1) * (Distance(y1, y2) + 1) > max
  {
    hide Id;
    var xa, xb := Min(x1, x2), Max(x1, x2);
    var ya, yb := Min(y1, y2), Max(y1, y2);
    var size := (xb - xa + 1) * (yb - ya + 1);
    if size > max {
      return None;
    }
    var ret: seq<string> := [];
    var x := xa;
    while x < xb + 1
      invariant xa <= x <= xb + 1
      invariant ret == Grid(xa, x, ya, yb + 1)
    {
      ghost var done := ret;
      var y := ya;
      while y < yb + 1
        invariant ya <= y <= yb + 1
        invariant ret == done + Column(x, ya, y)
      {
        ret := ret + [Id(x, y)];
        y := y + 1;
      }
      x := x + 1;
    }
    return Some(ret);
  }

  // ---------- what the enumeration is ----------

  lemma {:induction false} ColumnAt(x: int, ya: int, yb: int)
    requires ya <= yb
    ensures |Column(x, ya, yb)| == yb - ya
    ensures forall j :: 0 <= j < yb - ya ==> Column(x, ya, yb)[j] == Id(x, ya + j)
    ensures forall y :: ya <= y < yb ==> Id(x, y) in Column(x, ya, yb)
    decreases yb - ya
  {
    hide Id;
    if ya == yb {
    } else {
      ColumnAt(x, ya, yb - 1);
    }
  }

  /** a comes before b in the lexicographic order of their coordinates. */
  predicate Before(a: string, b: string) {
    var p, q := Parse(a), Parse(b);
    p.Some? && q.Some? && (p.value.0 < q.value.0 || (p.value.0 == q.value.0 && p.value.1 < q.value.1))
  }

  lemma {:induction false} GridLength(xa: int, xb: int, ya: int, yb: int)
    requires xa <= xb && ya <= yb
    ensures |Grid(xa, xb, ya, yb)| == (xb - xa) * (yb - ya)
    decreases xb - xa
  {
    hide Id;
    if xa == xb {
    } else {
      GridLength(xa, xb - 1, ya, yb);
      ColumnAt(xb - 1, ya, yb);
      assert (xb - 1 - xa) * (yb - ya) + (yb - ya) == (xb - xa) * (yb - ya);
    }
  }

  lemma {:induction false} GridMembers(xa: int, xb: int, ya: int, yb: int)
    requires xa <= xb && ya <= yb
    ensures forall x, y :: xa <= x < xb && ya <= y < yb ==> Id(x, y) in Grid(xa, xb, ya, yb)
    ensures forall s :: s in Grid(xa, xb, ya, yb) ==>
              exists x, y :: xa <= x < xb && ya <= y < yb && s == Id(x, y)
    decreases xb - xa
  {
    hide Id;
    if xa == xb {
    } else {
      GridMembers(xa, xb - 1, ya, yb);
      ColumnAt(xb - 1, ya, yb);
    }
  }

  lemma {:induction false} GridOrder(xa: int, xb: int, ya: int, yb: int)
    requires xa <= xb && ya <= yb
    requires Int64(xa) && Int64(xb) && Int64(ya) && Int64(yb)
    ensures forall k, l :: 0 <= k < l < |Grid(xa, xb, ya, yb)| ==>
              Before(Grid(xa, xb, ya, yb)[k], Grid(xa, xb, ya, yb)[l])
    decreases xb - xa
  {
    hide Id, Parse;
    if xa == xb {
    } else {
      var g, c := Grid(xa, xb - 1, ya, yb), Column(xb - 1, ya, yb);
      GridOrder(xa, xb - 1, ya, yb);
      GridMembers(xa, xb - 1, ya, yb);
      ColumnAt(xb - 1, ya, yb);
      forall j | 0 <= j < |c|
        ensures Parse(c[j]) == Some((xb - 1, ya + j))
      {
        ParseOfId(xb - 1, ya + j);
      }
      forall s | s in g
        ensures Parse(s).Some? && Parse(s).value.0 < xb - 1
      {
        var x, y :| xa <= x < xb - 1 && ya <= y < yb && s == Id(x, y);
        ParseOfId(x, y);
      }
    }
  }

  predicate Bounded(n: int) {
    -0x4000_0000_0000_0000 < n < 0x4000_0000_0000_0000
  }

  /** A rectangle is listed completely and exactly: as many identifiers as its
      area, one for each parcel inside, in the strict lexicographic order of the
      coordinates (hence none twice), and the same list for every choice of
      opposite corners. */
  lemma IdsAreExact(x1: int, y1: int, x2: int, y2: int)
    requires Bounded(x1) && Bounded(y1) && Bounded(x2) && Bounded(y2)
    ensures |Ids(x1, y1, x2, y2)| == Area(x1, y1, x2, y2)
    ensures forall x, y :: Int64(x) && Int64(y) ==>
              (Id(x, y) in Ids(x1, y1, x2, y2) <==> Inside(x, y, x1, y1, x2, y2))
    ensures forall s :: s in Ids(x1, y1, x2, y2) ==>
              exists x, y :: Inside(x, y, x1, y1, x2, y2) && s == Id(x, y)
    ensures forall k, l :: 0 <= k < l < |Ids(x1, y1, x2, y2)| ==>
              Before(Ids(x1, y1, x2, y2)[k], Ids(x1, y1, x2, y2)[l])
              && Ids(x1, y1, x2, y2)[k] != Ids(x1, y1, x2, y2)[l]
    ensures Ids(x1, y1, x2, y2) == Ids(x2, y1, x1, y2) == Ids(x1, y2, x2, y1)
  {
    hide Id, Parse, Grid;
    var xa, xb := Min(x1, x2), Max(x1, x2) + 1;
    var ya, yb := Min(y1, y2), Max(y1, y2) + 1;
    GridLength(xa, xb, ya, yb);
    GridMembers(xa, xb, ya, yb);
    GridOrder(xa, xb, ya, yb);
    forall x, y | Int64(x) && Int64(y) && Id(x, y) in Grid(xa, xb, ya, yb)
      ensures Inside(x, y, x1, y1, x2, y2)
    {
      var x', y' :| xa <= x' < xb && ya <= y' < yb && Id(x, y) == Id(x', y');
      IdInjective(x, y, x', y');
    }
    forall s | s in Grid(xa, xb, ya, yb)
      ensures exists x, y :: Inside(x, y, x1, y1, x2, y2) && s == Id(x, y)
    {
      var x, y :| xa <= x < xb && ya <= y < yb && s == Id(x, y);
      assert Inside(x, y, x1, y1, x2, y2);
    }
  }

  /** In terms of the corners alone: a parcel is listed if each coordinate lies
      between those of the corners, whichever of them is the greater. */
  lemma IdsBetween(x1: int, y1: int, x2: int, y2: int, x: int, y: int)
    requires Bounded(x1) && Bounded(y1) && Bounded(x2) && Bounded(y2) && Int64(x) && Int64(y)
    ensures Id(x, y) in Ids(x1, y1, x2, y2) <==> (x1 <= x <= x2 || x2 <= x <= x1) && (y1 <= y <= y2 || y2 <= y <= y1)
    ensures |Ids(x1, y1, x2, y2)| == (Distance(x1, x2) + 1) * (Distance(y1, y2) + 1)
  {
    hide Id, Ids;
    IdsAreExact(x1, y1, x2, y2);
  }

  lemma IdInside(x: int, y: int, x1: int, y1: int, x2: int, y2: int)
    requires Bounded(x1) && Bounded(y1) && Bounded(x2) && Bounded(y2) && Int64(x) && Int64(y)
    ensures Id(x, y) in Ids(x1, y1, x2, y2) <==> Inside(x, y, x1, y1, x2, y2)
  {
    IdsAreExact(x1, y1, x2, y2);
  }

  lemma SameIdsSameRows(x1: int, y1: int, x2: int, y2: int)
    requires Bounded(x1) && Bounded(y1) && Bounded(x2) && Bounded(y2)
    requires Ids(x1, x1, x2, x2) == Ids(x1, y1, x2, y2)
    ensures Min(y1, y2) == Min(x1, x2) && Max(y1, y2) == Max(x1, x2)
  {
    hide Id, Ids;
    IdInside(x1, x1, x1, x1, x2, x2);
    IdInside(x1, x1, x1, y1, x2, y2);
    IdInside(x2, x2, x1, x1, x2, x2);
    IdInside(x2, x2, x1, y1, x2, y2);
    IdInside(x1, y1, x1, x1, x2, x2);
    IdInside(x1, y1, x1, y1, x2, y2);
    IdInside(x2, y2, x1, x1, x2, x2);
    IdInside(x2, y2, x1, y1, x2, y2);
  }

  /** Corners printed into a /mappings query come back with their first coordinate
      twice. The rectangle asked for is the one that is listed exactly if it covers
      the same rows as columns. */
  lemma QueriedRectangleIff(x1: int, y1: int, x2: int, y2: int)
    requires Bounded(x1) && Bounded(y1) && Bounded(x2) && Bounded(y2)
    ensures ParseQuery(Id(x1, y1)) == Some((x1, x1)) && ParseQuery(Id(x2, y2)) == Some((x2, x2))
    ensures Ids(x1, x1, x2, x2) == Ids(x1, y1, x2, y2) <==> Min(y1, y2) == Min(x1, x2) && Max(y1, y2) == Max(x1, x2)
  {
    hide Id, ParseQuery, Grid, Area;
    ParseQueryOfId(x1, y1);
    ParseQueryOfId(x2, y2);
    if Ids(x1, x1, x2, x2) == Ids(x1, y1, x2, y2) {
      SameIdsSameRows(x1, y1, x2, y2);
    }
  }
}
