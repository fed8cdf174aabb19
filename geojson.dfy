/** Decoded GeoJSON geometry objects (RFC 7946, section 3) and the axis swap
    between a GeoJSON position and a stored point. Decoding JSON text is done
    by a library that is not part of this model; its outcome is an input. */
module GeoJsonObjects {
  import opened Errors
  import opened Primitives

  /** A GeoJSON position: x (longitude) first, then y (latitude), as section
      3.1.1 of RFC 7946 orders them. */
  datatype Position = Position(x: int, y: int)

  /** The GeoJSON object kinds of RFC 7946, section 1.4, with their coordinates. */
  datatype GeoJson =
    | GeoPoint(position: Position)
    | GeoLineString(positions: seq<Position>)
    | GeoPolygon(rings: seq<seq<Position>>)
    | GeoMultiPoint(positions: seq<Position>)
    | GeoMultiLineString(lines: seq<seq<Position>>)
    | GeoMultiPolygon(polygons: seq<seq<seq<Position>>>)
    | GeoGeometryCollection(geometries: seq<GeoJson>)
    | GeoFeature(geometry: Option<GeoJson>)
    | GeoFeatureCollection(features: seq<GeoJson>)

  function KindOf(g: GeoJson): Kind {
    match g
    case GeoPoint(_) => PointKind
    case GeoLineString(_) => LineStringKind
    case GeoPolygon(_) => PolygonKind
    case GeoMultiPoint(_) => MultiPointKind
    case GeoMultiLineString(_) => MultiLineStringKind
    case GeoMultiPolygon(_) => MultiPolygonKind
    case GeoGeometryCollection(_) => GeometryCollectionKind
    case GeoFeature(_) => FeatureKind
    case GeoFeatureCollection(_) => FeatureCollectionKind
  }

  /** What `fromJson` is given: an already decoded object, or JSON text
      together with what decoding it yields. None stands for both ways the
      text can fail: `json_decode` rejects it (a JSON exception), or it is
      valid JSON that the GeoJSON library cannot unserialise (that library's
      own exception); the model does not tell these two apart. */
  datatype Input = Decoded(object: GeoJson) | JsonText(decoding: Option<GeoJson>)

  function Decode(input: Input): (r: Result<GeoJson>)
    ensures r.Failure? ==> r.error == JsonDecodeError
  {
    match input
    case Decoded(g) => Success(g)
    case JsonText(None) => Failure(JsonDecodeError)
    case JsonText(Some(g)) => Success(g)
  }

  /** The point built from a position [x, y]: latitude y, longitude x. */
  function PointOf(pos: Position): Point {
    Point(pos.y, pos.x)
  }

  /** The position a point serialises to: [lng, lat]. */
  function PositionOf(p: Point): Position {
    Position(p.lng, p.lat)
  }

  /** The points of a list of positions, each with its axes swapped. */
  function PointsOf(positions: seq<Position>): (points: seq<Point>)
    ensures |points| == |positions|
    ensures forall i :: 0 <= i < |positions| ==>
      points[i].lat == positions[i].y && points[i].lng == positions[i].x
  {
    if |positions| == 0 then [] else [PointOf(positions[0])] + PointsOf(positions[1..])
  }

  /** The positions of a list of points, each with its axes swapped. */
  function PositionsOf(points: seq<Point>): (positions: seq<Position>)
    ensures |positions| == |points|
    ensures forall i :: 0 <= i < |points| ==>
      positions[i].x == points[i].lng && positions[i].y == points[i].lat
  {
    if |points| == 0 then [] else [PositionOf(points[0])] + PositionsOf(points[1..])
  }

  /** Swapping the axes twice gives the points back. */
  lemma PointsOfPositionsOf(points: seq<Point>)
    ensures PointsOf(PositionsOf(points)) == points
  {
    var back := PointsOf(PositionsOf(points));
    assert forall i :: 0 <= i < |points| ==> back[i] == points[i];
  }
}
