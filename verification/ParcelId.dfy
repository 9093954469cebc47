/** Parcel identifiers as text: how coordinates are printed ("%d,%d") and how
    the authorization service reads them back. */
module ParcelId {
  import opened Results

  const MAX_INT64: int := 0x7fff_ffff_ffff_ffff
  const MIN_INT64: int := -0x8000_0000_0000_0000

  predicate Int64(n: int) {
    MIN_INT64 <= n <= MAX_INT64
  }

  type int64 = n: int | Int64(n)

  // ---------- integers ----------

  function DigitChar(d: nat): char
    requires d < 10
  {
    '0' + d as char
  }

  predicate AllDigits(s: string) {
    forall i :: 0 <= i < |s| ==> '0' <= s[i] <= '9'
  }

  function PrintNat(n: nat): (s: string)
    ensures |s| > 0 && AllDigits(s)
  {
    if n < 10 then [DigitChar(n)] else PrintNat(n / 10) + [DigitChar(n % 10)]
  }

  /** fmt.Sprintf("%d", n). */
  function Print(n: int): string {
    if n < 0 then "-" + PrintNat(-n) else PrintNat(n)
  }

  function Magnitude(s: string): nat
    requires AllDigits(s)
  {
    if s == [] then 0 else Magnitude(s[..|s| - 1]) * 10 + (s[|s| - 1] - '0') as nat
  }

  /** strconv.ParseInt(s, 10, 64): an optional sign, at least one digit, in range. */
  function ParseInt(s: string): Option<int> {
    var signed := |s| > 0 && (s[0] == '-' || s[0] == '+');
    var body := if signed then s[1..] else s;
    if body == [] || !AllDigits(body) then None
    else
      var m: int := Magnitude(body);
      var v := if signed && s[0] == '-' then -m else m;
      if MIN_INT64 <= v <= MAX_INT64 then Some(v) else None
  }

  lemma {:induction false} MagnitudeOfPrint(n: nat)
    ensures Magnitude(PrintNat(n)) == n
  {
    var s := PrintNat(n);
    if n < 10 {
      assert s[..0] == [];
    } else {
      MagnitudeOfPrint(n / 10);
      assert s[..|s| - 1] == PrintNat(n / 10);
    }
  }

  /** Printing a 64-bit integer and parsing the text gives the integer back. */
  lemma ParseIntOfPrint(n: int)
    requires MIN_INT64 <= n <= MAX_INT64
    ensures ParseInt(Print(n)) == Some(n)
  {
    hide PrintNat, Magnitude;
    if n < 0 {
      MagnitudeOfPrint(-n);
      assert Print(n)[1..] == PrintNat(-n);
    } else {
      MagnitudeOfPrint(n);
      assert '0' <= Print(n)[0] <= '9';
    }
  }

  /** Outside the 64-bit range a printed integer is refused. */
  lemma ParseIntOfPrintIff(n: int)
    ensures ParseInt(Print(n)) == if -9223372036854775808 <= n <= 9223372036854775807 then Some(n) else None
  {
    if MIN_INT64 <= n <= MAX_INT64 {
      ParseIntOfPrint(n);
    } else {
      hide PrintNat, Magnitude;
      MagnitudeOfPrint(if n < 0 then -n else n);
      assert n < 0 ==> Print(n)[1..] == PrintNat(-n);
      assert n >= 0 ==> '0' <= Print(n)[0] <= '9';
    }
  }

  /** Printed integers are decimal, the most significant digit first. */
  lemma PrintedTexts()
    ensures Print(0) == "0" && Print(120) == "120" && Print(-7) == "-7"
  {
    assert PrintNat(1) == "1" && PrintNat(12) == "12";
  }

  /** A parsed integer is all digits but for one sign. */
  lemma OnlyDigitsParse(s: string, i: nat)
    requires i < |s| && !('0' <= s[i] <= '9') && (i > 0 || (s[0] != '-' && s[0] != '+'))
    ensures ParseInt(s) == None
  {
    if s[0] == '-' || s[0] == '+' {
      assert s[1..][i - 1] == s[i];
    }
  }

  lemma NoDigitsParse()
    ensures ParseInt("") == ParseInt("-") == ParseInt("+") == None
  {
    assert "-"[1..] == "" && "+"[1..] == "";
  }

  /** Leading zeros and a plus sign are accepted. */
  lemma OtherTextsParse(n: nat)
    requires n <= 9223372036854775807
    ensures ParseInt("0" + PrintNat(n)) == ParseInt("+" + PrintNat(n)) == Some(n)
  {
    MagnitudeOfPrint(n);
    LeadingZero(PrintNat(n));
    hide PrintNat, Magnitude;
    assert ("+" + PrintNat(n))[1..] == PrintNat(n);
  }

  lemma {:induction false} LeadingZero(s: string)
    requires AllDigits(s)
    ensures AllDigits("0" + s) && Magnitude("0" + s) == Magnitude(s)
    decreases |s|
  {
    if s == [] {
      assert "0"[..0] == "";
    } else {
      LeadingZero(s[..|s| - 1]);
      assert ("0" + s)[..|s|] == "0" + s[..|s| - 1];
    }
  }

  lemma PrintHasNoComma(n: int)
    ensures ',' !in Print(n)
  {
  }

  // ---------- pairs of coordinates ----------

  function IndexOfComma(s: string): (i: nat)
    requires ',' in s
    ensures i < |s| && s[i] == ',' && ',' !in s[..i]
  {
    if s[0] == ',' then 0 else
      assert s == [s[0]] + s[1..];
      var i := IndexOfComma(s[1..]);
      assert s[..i + 1] == [s[0]] + s[1..][..i];
      i + 1
  }

  /** strings.Split(s, ","). */
  function Split(s: string): seq<string> {
    if ',' !in s then [s]
    else var i := IndexOfComma(s); [s[..i]] + Split(s[i + 1..])
  }

  lemma FirstComma(s: string, k: nat)
    requires k < |s| && s[k] == ',' && ',' !in s[..k]
    ensures IndexOfComma(s) == k
  {
    assert s[IndexOfComma(s)] == ',';
  }

  lemma SplitPair(a: string, b: string)
    requires ',' !in a && ',' !in b
    ensures Split(a + "," + b) == [a, b]
  {
    var s := a + "," + b;
    assert s[..|a|] == a && s[|a| + 1..] == b;
    FirstComma(s, |a|);
  }

  function Id(x: int, y: int): string {
    Print(x) + "," + Print(y)
  }

  /** The coordinate parser of UserCanModifyParcels. */
  function Parse(s: string): Option<(int, int)> {
    var tokens := Split(s);
    if |tokens| != 2 then None
    else
      var x, y := ParseInt(tokens[0]), ParseInt(tokens[1]);
      if x.Some? && y.Some? then Some((x.value, y.value)) else None
  }

  /** The coordinate parser of the /mappings query, which reads its first token twice. */
  function ParseQuery(s: string): Option<(int, int)> {
    var tokens := Split(s);
    if |tokens| != 2 then None
    else
      var x, y := ParseInt(tokens[0]), ParseInt(tokens[0]);
      if x.Some? && y.Some? then Some((x.value, y.value)) else None
  }

  /** The authorization parser inverts the printed identifier. */
  lemma ParseOfId(x: int, y: int)
    requires Int64(x) && Int64(y)
    ensures Parse(Id(x, y)) == Some((x, y))
  {
    PrintHasNoComma(x);
    PrintHasNoComma(y);
    SplitPair(Print(x), Print(y));
    ParseIntOfPrint(x);
    ParseIntOfPrint(y);
  }

  /** Identifiers of different 64-bit coordinates are different strings. */
  lemma IdInjective(x: int, y: int, x': int, y': int)
    requires Int64(x) && Int64(y) && Int64(x') && Int64(y')
    requires Id(x, y) == Id(x', y')
    ensures x == x' && y == y'
  {
    ParseOfId(x, y);
    ParseOfId(x', y');
  }

  /** The query parser inverts a printed identifier exactly on the diagonal. */
  lemma ParseQueryOfId(x: int, y: int)
    requires Int64(x) && Int64(y)
    ensures ParseQuery(Id(x, y)) == Some((x, x))
    ensures ParseQuery(Id(x, y)) == Some((x, y)) <==> x == y
  {
    PrintHasNoComma(x);
    PrintHasNoComma(y);
    SplitPair(Print(x), Print(y));
    ParseIntOfPrint(x);
  }

  /** An identifier is one coordinate, a comma and the other, in this order. */
  lemma IdText()
    ensures Id(120, -7) == "120,-7"
  {
    PrintedTexts();
    hide Print;
    assert "120" + "," + "-7" == "120,-7";
  }

  lemma {:induction false} SplitLength(s: string, k: nat)
    requires k < |s| && s[k] == ','
    ensures |Split(s)| >= 1 + |Split(s[k + 1..])|
    decreases |s|
  {
    var i := IndexOfComma(s);
    assert i <= k;
    if i == k {
    } else {
      assert s[i + 1..][k - i - 1] == s[k];
      SplitLength(s[i + 1..], k - i - 1);
      assert s[i + 1..][k - i - 1 + 1..] == s[k + 1..];
    }
  }

  /** Text with no comma, or with more than one, is no parcel. */
  lemma NoComma(s: string)
    requires ',' !in s
    ensures Parse(s) == None
  {
    hide ParseInt;
  }

  lemma TwoCommas(s: string, i: nat, j: nat)
    requires i < j < |s| && s[i] == s[j] == ','
    ensures Parse(s) == None
  {
    SplitLength(s, i);
    assert s[i + 1..][j - i - 1] == ',';
    SplitLength(s[i + 1..], j - i - 1);
    hide ParseInt, Split;
    assert |Split(s)| > 2 by { SplitIsSome(s[i + 1..][j - i - 1 + 1..]); }
  }

  lemma SplitIsSome(s: string)
    ensures |Split(s)| >= 1
  {
  }
}
