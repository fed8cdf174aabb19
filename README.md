# MultiPoint and MultiLineString of laravel-mysql-spatial, in Dafny

This project models the two multi-geometry types of the spatial extension:

- **MultiPoint**: a collection of at least one Point.
- **MultiLineString**: a collection of at least one LineString, each of which holds at least two points.

Each carries an SRID. Each is converted to and from:

- the body of its WKT text (`MULTIPOINT((1 2),(3 4))`, `MULTILINESTRING((1 2,3 4),(5 6,7 8))`);
- its GeoJSON object.

A MultiLineString also stores items in place through its validated setter, which accepts only LineStrings.

Modules:

- `Errors` (`errors.dfy`) holds:
  - the geometry kinds;
  - the exceptions the types raise, as an `Error` datatype;
  - `Result` and `Option`;
  - `MapAll`, which is `array_map` with a callback that may throw.
- `Text` (`text.dfy`) holds PHP's `trim`, `implode` and `explode`, the PCRE classes `\s` and `\d` measured as maximal runs, and decimal integers.
- `Primitives` (`primitives.dfy`) holds Point, LineString and the WKT argument extraction, as far as the two collections rely on them.
- `GeoJsonObjects` (`geojson.dfy`) holds:
  - decoded GeoJSON geometry objects, whose kinds follow section 1.4 of RFC 7946;
  - the outcome of decoding JSON text;
  - the axis swap between a position `[x, y]` and a point `(lat, lng)`.
- `MultiPoints` (`multipoint.dfy`) holds:
  - the value type;
  - `toWKT`, `fromWkt` and `fromString`, where the regular expression `\(\s*(\d+\s+\d+)\s*\)` is modelled as a left-to-right scan;
  - `__toString`;
  - `jsonSerialize` and `fromJson`, as loops proved against specification functions.
- `MultiLineStrings` (`multilinestring.dfy`) holds:
  - the value type;
  - `toWKT` and `fromString`, where the split on `\)\s*,\s*\(` is modelled as `Split`;
  - `__toString`;
  - `jsonSerialize` and `fromJson`, as loops, `fromJson` with a nested loop;
  - the class `MultiLineStringObject`, whose `OffsetSet` updates the item list in place.

Both regular expressions use character classes that do not overlap (`(`, `)`, `,`, `\s`, `\d`). So at a given start they can only match with every run taken as long as it goes, and backtracking never finds another match. The model computes each match from maximal runs.

Coordinates are integers. Exceptions are `Failure(error)` values:

| error | raised when |
|---|---|
| `CardinalityError(kind, minimum)` | too few items |
| `TypeMismatch(collection, itemType)` | a value of the wrong type is stored |
| `MalformedWkt` | a coordinate pair cannot be read |
| `InvalidGeoJson(expected, actual)` | the GeoJSON object has the wrong kind |
| `JsonDecodeError` | the JSON text does not decode, or does not unserialise to a GeoJSON object |

The classes Point, LineString, PointCollection (the parent of MultiPoint), Geometry and GeometryCollection are not part of this model. These are the behaviours the two types are assumed to get from them:

- `Point::toPair` writes "lng lat" in decimal.
- `Point::fromPair` reads two whitespace-separated integers, longitude first, and builds `Point(lat, lng)`.
- `LineString::fromString` trims its argument, explodes it on `,` and reads each pair.
- A LineString with fewer than two points is refused with `CardinalityError(LineString, 2)`.
- `Geometry::getWKTArgument` is the text between the first `(` and the last `)`.
- The collection constructor refuses fewer items than the minimum.
- `validateItemType` refuses a value that is not of the item type.

## Model

| member | source | states |
|---|---|---|
| MultiPoints.New | src/Types/MultiPoint.php:16 | a MultiPoint is built iff it has at least one point; otherwise the error is CardinalityError(MultiPoint, 1); points and SRID are kept |
| MultiPoints.MultiPoint.ToWkt | src/Types/MultiPoint.php:18-21 | toWKT starts with the keyword `MULTIPOINT`, and its WKT argument is exactly the string form |
| MultiPoints.ToStringForm | src/Types/MultiPoint.php:40-43 | __toString is the "lng lat" pairs joined by "),(" inside one pair of parentheses, and "" with no point |
| MultiPoints.MatchPairAt | src/Types/MultiPoint.php:33 | a match starts with '(' and ends with ')', and its captured group lies strictly inside it |
| MultiPoints.MatchPairAtIff | src/Types/MultiPoint.php:33 | the match found at a start is exactly a match of `\(\s*(\d+\s+\d+)\s*\)` there: '(', whitespace, digits, whitespace, digits, whitespace, ')'; both directions |
| MultiPoints.PairMatchFound | src/Types/MultiPoint.php:33 | every way the pattern can match at a start is the match found there |
| MultiPoints.PaddedPairMatched | src/Types/MultiPoint.php:33 | "( 1\t2 )" matches whole, capturing "1\t2": whitespace inside the parentheses is accepted |
| MultiPoints.MatchedDigitPair | src/Types/MultiPoint.php:33 | what a match captures is digits, whitespace, digits and nothing else |
| MultiPoints.Scan | src/Types/MultiPoint.php:33 | every group preg_match_all captures is digits, whitespace, digits |
| MultiPoints.ScanEmpty | src/Types/MultiPoint.php:33 | preg_match_all finds nothing iff the pattern matches at no position of the text |
| MultiPoints.ScanSkipsGroup | src/Types/MultiPoint.php:33 | a parenthesised group that does not match and holds no '(' adds nothing: the scan goes on with what follows |
| MultiPoints.MatchWrappedPair | src/Types/MultiPoint.php:33 | "(lng lat)" with non-negative coordinates is matched exactly, capturing "lng lat", whatever follows |
| MultiPoints.ScanWithoutParen | src/Types/MultiPoint.php:33 | text with no '(' yields no match |
| MultiPoints.ReadDigitPairs | src/Types/MultiPoint.php:35 | every captured group reads as a Point, with non-negative coordinates |
| MultiPoints.FromString | src/Types/MultiPoint.php:30-38 | one point per match of the trimmed argument, in order, each read by fromPair; succeeds iff there is a match; otherwise CardinalityError(MultiPoint, 1); the SRID is the one given |
| MultiPoints.EmptyArgumentRefused | src/Types/MultiPoint.php:30-38 | an empty argument gives CardinalityError(MultiPoint, 1), not an empty collection |
| MultiPoints.FromWkt | src/Types/MultiPoint.php:23-28 | succeeds iff the WKT argument holds a match; the SRID is passed through |
| MultiPoints.ScanWrapped | src/Types/MultiPoint.php:40-43 | scanning the string form of points with non-negative coordinates captures exactly their pairs, in order |
| MultiPoints.RoundTrip | src/Types/MultiPoint.php:40-43 | fromString of __toString gives the same MultiPoint back when no coordinate is negative |
| MultiPoints.WktRoundTrip | src/Types/MultiPoint.php:23-28 | fromWkt of toWKT gives the same MultiPoint back, SRID included, when no coordinate is negative |
| MultiPoints.SignedPointSkipped | src/Types/MultiPoint.php:33 | a point with a negative coordinate is not matched: reading its own string form fails with CardinalityError(MultiPoint, 1) |
| MultiPoints.SignedGroupSkipped | src/Types/MultiPoint.php:33 | the group of a point with a negative coordinate is skipped whatever follows it: the matches are those of the rest |
| MultiPoints.SignedPointDropped | src/Types/MultiPoint.php:30-38 | reading the string form of a point with a negative coordinate followed by non-negative points gives a MultiPoint of only the latter, without an error |
| MultiPoints.UnmatchedGroupDropped | src/Types/MultiPoint.php:30-38 | an unmatched group before the string form of a MultiPoint is dropped silently: that MultiPoint is read back |
| MultiPoints.ToStringCons | src/Types/MultiPoint.php:40-43 | the string form of a point followed by others is its group, ',' and the others' string form |
| MultiPoints.NonIntegerGroupSkipped | src/Types/MultiPoint.php:33 | a group whose first number is followed by a character other than a digit, whitespace or a parenthesis (as in "1.5" or "1e3") is skipped: the matches are those of what follows |
| MultiPoints.NonIntegerSecondSkipped | src/Types/MultiPoint.php:33 | the same for the second number, as in "(1 2.5)": the group is skipped and the matches are those of what follows |
| MultiPoints.BarePairsSkipped | src/Types/MultiPoint.php:33 | pairs without their own parentheses ("1 2,3 4") give no point and CardinalityError(MultiPoint, 1) |
| MultiPoints.ToGeoJson | src/Types/MultiPoint.php:68-76 | the GeoJSON MultiPoint has one position per point, in order, with x = lng and y = lat |
| MultiPoints.JsonSerialize | src/Types/MultiPoint.php:68-76 | the loop builds exactly ToGeoJson |
| MultiPoints.FromGeoJson | src/Types/MultiPoint.php:45-61 | undecodable text gives JsonDecodeError; another kind gives InvalidGeoJson(MultiPoint, kind); otherwise one point per position, in order, lat = y and lng = x, SRID 0; no position gives CardinalityError(MultiPoint, 1) |
| MultiPoints.FromJson | src/Types/MultiPoint.php:45-61 | the loop computes exactly FromGeoJson |
| MultiPoints.JsonRoundTrip | src/Types/MultiPoint.php:45-76 | fromJson of jsonSerialize gives the points back, with SRID 0 |
| MultiLineStrings.New | src/Types/MultiLineString.php:16 | built iff there is at least one line string; otherwise CardinalityError(MultiLineString, 1); items and SRID are kept |
| MultiLineStrings.MultiLineString.ToWkt | src/Types/MultiLineString.php:30-33 | toWKT starts with the keyword `MULTILINESTRING`, and its WKT argument is exactly the string form |
| MultiLineStrings.ToStringForm | src/Types/MultiLineString.php:43-46 | __toString is the line strings' bodies joined by "),(" inside one pair of parentheses, and "" with no line string |
| MultiLineStrings.SeparatorAt | src/Types/MultiLineString.php:37 | a recognised separator is ')', whitespace, one ',', whitespace, '(' |
| MultiLineStrings.SeparatorRecognized | src/Types/MultiLineString.php:37 | every such separator is recognised where it starts, with its full length |
| MultiLineStrings.Split | src/Types/MultiLineString.php:37 | preg_split gives one piece more than separators, every separator matches the pattern, and putting the separators back between the pieces gives the text |
| MultiLineStrings.SplitComplete | src/Types/MultiLineString.php:37 | besides, no piece holds a match of the pattern: the text is cut at every separator, empty pieces kept |
| MultiLineStrings.Strip | src/Types/MultiLineString.php:37 | substr(s, 1, -1) drops the first and the last character, and gives "" for text shorter than two characters |
| MultiLineStrings.PiecesCutBody | src/Types/MultiLineString.php:37 | the pieces fromString reads are the trimmed argument, without its first and last character, cut at every separator |
| MultiLineStrings.PiecesOfToString | src/Types/MultiLineString.php:37-46 | the pieces of __toString are exactly the bodies of the line strings |
| MultiLineStrings.SplitJoin | src/Types/MultiLineString.php:37 | splitting pieces joined with "),(" gives those pieces back when none holds ')' |
| MultiLineStrings.StripParentheses | src/Types/MultiLineString.php:37 | substr(s, 1, -1) of "(" + x + ")" is x |
| MultiLineStrings.FromString | src/Types/MultiLineString.php:35-41 | one line string per piece, in order, each read by LineString::fromString; the count is the number of separators plus one; fails iff some piece fails, with the error of the first piece that fails, which is never the MultiLineString cardinality error; the SRID is the one given |
| MultiLineStrings.FromWkt | src/Types/MultiLineString.php:35-41 | the inherited fromWkt reads the pieces of the WKT argument; the SRID is passed through |
| Text.JoinParenthesized | src/Types/MultiLineString.php:45 | implode(',') of the parenthesised strings is the strings joined by "),(" inside one pair of parentheses |
| MultiLineStrings.RoundTrip | src/Types/MultiLineString.php:43-46 | fromString of __toString gives the same MultiLineString back |
| MultiLineStrings.WktRoundTrip | src/Types/MultiLineString.php:35-41 | fromWkt of toWKT gives the same MultiLineString back, SRID included |
| MultiLineStrings.ToGeoJson | src/Types/MultiLineString.php:82-91 | one GeoJSON line per line string and one position per point, in order, with x = lng and y = lat |
| MultiLineStrings.JsonSerialize | src/Types/MultiLineString.php:82-91 | the loop builds exactly ToGeoJson |
| MultiLineStrings.LineOf | src/Types/MultiLineString.php:67-71 | a line of positions becomes a LineString of the swapped points iff it has at least two positions; otherwise CardinalityError(LineString, 2) |
| MultiLineStrings.FromGeoJson | src/Types/MultiLineString.php:55-75 | undecodable text gives JsonDecodeError; another kind gives InvalidGeoJson(MultiLineString, kind); no line gives CardinalityError(MultiLineString, 1) and nothing else; with lines, a short line gives CardinalityError(LineString, 2); otherwise one line string per line, in order, axes swapped, SRID 0 |
| MultiLineStrings.FromJson | src/Types/MultiLineString.php:55-75 | the nested loops compute exactly FromGeoJson, including the error of the first short line |
| MultiLineStrings.JsonRoundTrip | src/Types/MultiLineString.php:55-91 | fromJson of jsonSerialize gives the line strings back, with SRID 0 |
| MultiLineStrings.Store | src/Types/MultiLineString.php:48-53 | only a LineString is stored; anything else gives TypeMismatch(MultiLineString, LineString); no offset appends; an offset inside the list replaces that item and keeps the others |
| MultiLineStrings.MultiLineStringObject.constructor | src/Types/MultiLineString.php:16-23 | the object holds the line strings and SRID of a valid value, so it starts with at least one item, all LineStrings |
| MultiLineStrings.MultiLineStringObject.OffsetSet | src/Types/MultiLineString.php:48-53 | the items become Store's result; a refused value leaves them unchanged; the collection keeps at least one item |
| MultiLineStrings.MultiLineStringObject.GetLineStrings | src/Types/MultiLineString.php:25-28 | the line strings the object holds, in order |
| Errors.MapAll | src/Types/MultiLineString.php:38 | array_map with a throwing callback succeeds iff every element does, keeps order and length, and otherwise fails with the error of the first element that fails, every element before it succeeding |
| Errors.MapAllFirstFailure | src/Types/MultiLineString.php:38 | given an element that fails with every element before it succeeding, array_map fails with exactly that element's error |
| Text.Trim | src/Types/MultiPoint.php:33 | trim gives a slice of its argument with only trim characters cut away before and after it; the result neither starts nor ends with one; text that has none at its ends is unchanged |
| Text.ExplodeJoin | src/Types/MultiLineString.php:38 | explode on ',' undoes implode with ',' when no piece holds ',' |
| Primitives.FromPairToPair | src/Types/MultiPoint.php:35 | fromPair reads back what toPair writes: "lng lat" gives Point(lat, lng) |
| Primitives.NewLineString | src/Types/MultiLineString.php:71 | a LineString is built iff it has at least two points; otherwise CardinalityError(LineString, 2) |
| Primitives.LineStringRoundTrip | src/Types/MultiLineString.php:38 | LineString::fromString reads back a LineString's string form |
| Primitives.WktArgumentOf | src/Types/MultiPoint.php:25 | the WKT argument of "KEYWORD(body)" is body when the keyword holds no '(' |
| GeoJsonObjects.PointsOfPositionsOf | src/Types/MultiPoint.php:57 | swapping the axes of a point's position and back gives the point |

## Left out

- JSON decoding and the GeoJSON library's classes are not modelled: the input is either a decoded object or the outcome of decoding text. `None` stands for both failures: the JSON exception of `json_decode`, and the GeoJSON library's own exception for valid JSON that is not GeoJSON. Both become `JsonDecodeError`.
- Strings are sequences of characters. PHP's `trim`, `substr` and PCRE without the `u` modifier work on bytes, so text with multibyte characters is not modelled byte by byte.
- Exception messages are not modelled; the model keeps each exception's kind and the kinds and counts it names.
- Coordinates are integers. Floating-point coordinates, PHP's number-to-string formatting and PHP's lenient numeric casts are not modelled.
- Primitives.FromPair: reads only the integer form that toPair writes. PHP's float cast would also accept other text. Input that is not two integers gives MalformedWkt.
- Altitude, the Laravel model and the database layer are outside this model.
- Point, LineString, PointCollection, Geometry and GeometryCollection are not part of this model. Only the behaviour listed above is assumed of them.
- The collection operations that MultiPoint and MultiLineString do not define themselves are not modelled. This covers `offsetGet`, `offsetUnset`, `count`, `toArray` and iteration.
- MultiLineStrings.MultiLineStringObject.OffsetSet: offsets are `Option<nat>`, so negative offsets and non-numeric string offsets (such as "a" or "01"), which PHP stores as new keys, are not modelled; a decimal-integer string offset such as "1" acts as the int it spells, which `Some(1)` models. An offset past the end of the list, which PHP would store as a new sparse key, is excluded by its precondition.
- MultiLineStrings.Store: negative offsets, non-numeric string offsets and offsets past the end are not modelled, as for OffsetSet.
- MultiLineStrings.FromWkt: the inherited `fromWkt` is not in MultiLineString.php. It is modelled as the WKT argument passed to `fromString`, as MultiPoint's own `fromWkt` does.
- MultiPoints.RoundTrip: holds only for non-negative coordinates, because the scan's pattern has no sign. SignedPointSkipped shows that a negative coordinate is dropped.
