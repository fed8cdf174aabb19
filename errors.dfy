/** Geometry kinds, the errors the geometry types raise, and the result wrappers
    that stand for PHP exceptions. */
module Errors {

  /** The geometry kinds that occur as collection item types and as GeoJSON object types. */
  datatype Kind =
    | PointKind
    | LineStringKind
    | PolygonKind
    | MultiPointKind
    | MultiLineStringKind
    | MultiPolygonKind
    | GeometryCollectionKind
    | FeatureKind
    | FeatureCollectionKind

  /** The exceptions raised while building a geometry. */
  datatype Error =
    /** A collection of `collection` was given fewer than `minimum` items. */
    | CardinalityError(collection: Kind, minimum: nat)
    /** A value that is not a `itemType` was stored into a collection of `collection`. */
    | TypeMismatch(collection: Kind, itemType: Kind)
    /** A coordinate pair in WKT text could not be read. */
    | MalformedWkt
    /** A GeoJSON object of kind `actual` was given where `expected` was required. */
    | InvalidGeoJson(expected: Kind, actual: Kind)
    /** The JSON text could not be decoded, or the decoded JSON could not be
        unserialised into a GeoJSON object. */
    | JsonDecodeError

  datatype Option<+T> = None | Some(value: T)

  datatype Result<+T> = Success(value: T) | Failure(error: Error)

  datatype Outcome = Pass | Fail(error: Error)

  /** Applies `f` to every element, in order, and stops at the first failure:
      the behaviour of `array_map` with a callback that may throw. On failure
      the error is that of the first element that fails. */
  function MapAll<A, B>(xs: seq<A>, f: A -> Result<B>): (r: Result<seq<B>>)
    ensures r.Success? <==> forall i :: 0 <= i < |xs| ==> f(xs[i]).Success?
    ensures r.Success? ==> |r.value| == |xs| && forall i :: 0 <= i < |xs| ==> f(xs[i]) == Success(r.value[i])
    ensures r.Failure? ==>
      exists i :: 0 <= i < |xs| && f(xs[i]) == Failure(r.error) && forall k :: 0 <= k < i ==> f(xs[k]).Success?
  {
    if |xs| == 0 then Success([])
    else
      match f(xs[0])
      case Failure(e) => Failure(e)
      case Success(y) =>
        match MapAll(xs[1..], f)
        case Failure(e) =>
          ghost var i :| 0 <= i < |xs| - 1 && f(xs[1..][i]) == Failure(e)
            && forall k :: 0 <= k < i ==> f(xs[1..][k]).Success?;
          assert f(xs[i + 1]) == Failure(e);
          assert forall k :: 0 <= k < i + 1 ==> f(xs[k]).Success? by {
            assert forall k :: 1 <= k < i + 1 ==> xs[k] == xs[1..][k - 1];
          }
          Failure(e)
        case Success(ys) => Success([y] + ys)
  }

  /** When every element maps to the matching element of `ys`, the whole map is `ys`. */
  lemma MapAllPointwise<A, B>(xs: seq<A>, f: A -> Result<B>, ys: seq<B>)
    requires |ys| == |xs| && forall i :: 0 <= i < |xs| ==> f(xs[i]) == Success(ys[i])
    ensures MapAll(xs, f) == Success(ys)
  {
    var r := MapAll(xs, f);
    assert r.Success?;
    assert forall i :: 0 <= i < |xs| ==> r.value[i] == ys[i];
    assert r.value == ys;
  }

  /** The first element that fails decides the error. */
  lemma {:induction false} MapAllFirstFailure<A, B>(xs: seq<A>, f: A -> Result<B>, i: nat)
    requires i < |xs| && f(xs[i]).Failure?
    requires forall k :: 0 <= k < i ==> f(xs[k]).Success?
    ensures MapAll(xs, f) == Failure(f(xs[i]).error)
  {
    if i > 0 {
      MapAllFirstFailure(xs[1..], f, i - 1);
    }
  }
}
