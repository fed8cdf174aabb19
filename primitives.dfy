/** The simpler geometries a multi-geometry is made of: Point, LineString, and
    the WKT argument extraction shared by all geometries. Their PHP classes
    (Point, LineString, Geometry) are not part of this model; what follows is
    the behaviour the two multi-geometries assume of them:
    - a Point renders as "lng lat" and `FromPair` reads that form back;
    - a LineString holds at least two points and renders as its comma-joined pairs;
    - the WKT argument is the text between the first '(' and the last ')'. */
module Primitives {
  import opened Errors
  import opened Text

  /** A point, stored latitude first; WKT and GeoJSON write it longitude first. */
  datatype Point = Point(lat: int, lng: int)

  /** The fewest points a LineString may hold. */
  const LineStringMinimum := 2

  type LineString = s: seq<Point> | |s| >= LineStringMinimum witness [Point(0, 0), Point(0, 0)]

  /** A value handed to a collection's validated setter: a Point, a
      LineString, or any value of another type. */
  datatype Item = PointItem(point: Point) | LineStringItem(lineString: LineString) | OtherItem

  /** The coordinate pair of a point in WKT order: "lng lat". */
  function ToPair(p: Point): (s: string)
    ensures IsTrimmed(s)
    ensures ',' !in s && '(' !in s && ')' !in s
  {
    IntToString(p.lng) + " " + IntToString(p.lat)
  }

  /** Reads "lng lat": two integers separated by whitespace, surrounding
      whitespace ignored. */
  function FromPair(pair: string): (r: Result<Point>)
    ensures r.Failure? ==> r.error == MalformedWkt
  {
    var t := Trim(pair);
    var n := RunEnd(t, 0, IsNotSpace);
    var m := RunEnd(t, n, IsSpace);
    match (ParseInt(t[..n]), ParseInt(t[m..]))
    case (Some(lng), Some(lat)) => Success(Point(lat, lng))
    case _ => Failure(MalformedWkt)
  }

  /** `FromPair` reads back what `ToPair` writes. */
  lemma FromPairToPair(p: Point)
    ensures FromPair(ToPair(p)) == Success(p)
  {
    var x, y := IntToString(p.lng), IntToString(p.lat);
    var s := x + " " + y;
    assert s == ToPair(p);
    assert s[0] == x[0] && s[|s| - 1] == y[|y| - 1];
    assert Trim(s) == s;
    assert forall k :: 0 <= k < |x| ==> s[k] == x[k];
    RunEndIs(s, 0, |x|, IsNotSpace);
    assert s[|x|] == ' ' && s[|x| + 1] == y[0];
    RunEndIs(s, |x|, |x| + 1, IsSpace);
    assert s[..|x|] == x;
    assert s[|x| + 1..] == y;
    ParseIntToString(p.lng);
    ParseIntToString(p.lat);
  }

  /** Builds a LineString, failing when there are too few points. */
  function NewLineString(points: seq<Point>): (r: Result<LineString>)
    ensures r.Success? <==> |points| >= LineStringMinimum
    ensures r.Success? ==> r.value == points
    ensures r.Failure? ==> r.error == CardinalityError(LineStringKind, LineStringMinimum)
  {
    if |points| >= LineStringMinimum then Success(points)
    else Failure(CardinalityError(LineStringKind, LineStringMinimum))
  }

  /** The coordinate pair of each point, in order. */
  function Pairs(points: seq<Point>): (pairs: seq<string>)
    ensures |pairs| == |points|
    ensures forall i :: 0 <= i < |points| ==> pairs[i] == ToPair(points[i])
  {
    seq(|points|, i requires 0 <= i < |points| => ToPair(points[i]))
  }

  /** A LineString's WKT argument: its pairs joined by ',' with no spaces. */
  function LineStringToString(ls: LineString): string {
    Join(Pairs(ls), ",")
  }

  /** Reads a LineString's WKT argument: splits on ',' and reads each pair. */
  function LineStringFromString(s: string): (r: Result<LineString>)
    ensures r.Failure? ==> r.error == MalformedWkt || r.error == CardinalityError(LineStringKind, LineStringMinimum)
  {
    match MapAll(Explode(Trim(s), ','), FromPair)
    case Failure(e) => Failure(e)
    case Success(points) => NewLineString(points)
  }

  /** The comma-joined pairs of at least one point neither start nor end
      with a trim character, so trimming leaves them as they are. */
  lemma JoinedPairsTrimmed(points: seq<Point>)
    requires |points| >= 1
    ensures Trim(Join(Pairs(points), ",")) == Join(Pairs(points), ",")
  {
    var pairs := Pairs(points);
    forall i | 0 <= i < |pairs|
      ensures IsTrimmed(pairs[i])
    {
      assert pairs[i] == ToPair(points[i]);
    }
    JoinTrimmed(pairs, ",");
  }

  /** The comma-joined pairs hold no parenthesis. */
  lemma JoinedPairsNoParen(points: seq<Point>)
    ensures '(' !in Join(Pairs(points), ",") && ')' !in Join(Pairs(points), ",")
  {
    JoinAvoids(Pairs(points), ",", '(');
    JoinAvoids(Pairs(points), ",", ')');
  }

  /** Reading every pair of a point list gives the point list back. */
  lemma ReadPairs(points: seq<Point>)
    ensures MapAll(Pairs(points), FromPair) == Success(points)
  {
    var pairs := Pairs(points);
    forall i | 0 <= i < |points| ensures FromPair(pairs[i]) == Success(points[i]) {
      FromPairToPair(points[i]);
    }
    MapAllPointwise(pairs, FromPair, points);
  }

  /** `LineStringFromString` reads back what `LineStringToString` writes. */
  lemma LineStringRoundTrip(ls: LineString)
    ensures LineStringFromString(LineStringToString(ls)) == Success(ls)
  {
    var pairs := Pairs(ls);
    JoinedPairsTrimmed(ls);
    assert forall i :: 0 <= i < |pairs| ==> ',' !in pairs[i];
    ExplodeJoin(pairs, ',');
    ReadPairs(ls);
  }

  /** Index of the first occurrence of `c` in `s`. */
  function FirstIndex(s: string, c: char): (r: Option<nat>)
    ensures r.Some? ==> r.value < |s| && s[r.value] == c && c !in s[..r.value]
    ensures r.None? ==> c !in s
  {
    if |s| == 0 then None
    else if s[0] == c then Some(0)
    else match FirstIndex(s[1..], c)
      case None => None
      case Some(i) => Some(i + 1)
  }

  /** Index of the last occurrence of `c` in `s`. */
  function LastIndex(s: string, c: char): (r: Option<nat>)
    ensures r.Some? ==> r.value < |s| && s[r.value] == c && c !in s[r.value + 1..]
    ensures r.None? ==> c !in s
  {
    if |s| == 0 then None
    else if s[|s| - 1] == c then Some(|s| - 1)
    else LastIndex(s[..|s| - 1], c)
  }

  lemma {:induction false} FirstIndexIs(s: string, c: char, i: nat)
    requires i < |s| && s[i] == c && c !in s[..i]
    ensures FirstIndex(s, c) == Some(i)
  {
    if i > 0 {
      assert s[..i][0] == s[0];
      assert s[1..][..i - 1] == s[..i][1..];
      FirstIndexIs(s[1..], c, i - 1);
    }
  }

  /** The WKT argument: the text between the first '(' and the last ')',
      or "" when there is no such pair. */
  function GetWktArgument(wkt: string): string {
    match (FirstIndex(wkt, '('), LastIndex(wkt, ')'))
    case (Some(l), Some(r)) => if l < r then wkt[l + 1..r] else ""
    case _ => ""
  }

  /** The WKT argument of "KEYWORD(body)" is the body. */
  lemma WktArgumentOf(keyword: string, body: string)
    requires '(' !in keyword
    ensures GetWktArgument(keyword + "(" + body + ")") == body
  {
    var wkt := keyword + "(" + body + ")";
    var l, r := |keyword|, |wkt| - 1;
    assert wkt[l] == '(' && wkt[..l] == keyword;
    FirstIndexIs(wkt, '(', l);
    assert LastIndex(wkt, ')') == Some(r);
    assert wkt[l + 1..r] == body;
  }
}
