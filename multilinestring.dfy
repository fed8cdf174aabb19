/** MultiLineString: a collection of at least one LineString with an SRID,
    converted to and from the body of a WKT `MULTILINESTRING(...)` and a
    GeoJSON MultiLineString, and holding its items in a mutable list whose
    setter accepts only LineStrings. */
module MultiLineStrings {
  import opened Errors
  import opened Text
  import opened Primitives
  import opened GeoJsonObjects

  /** The WKT keyword. */
  const Keyword := "MULTILINESTRING"

  /** The fewest line strings a MultiLineString may hold. */
  const MinimumItems := 1

  /** The only kind of item the collection accepts. */
  const ItemKind := LineStringKind

  /** The SRID given to a MultiLineString when none is stated. */
  const DefaultSrid := 0

  datatype MultiLineString = MultiLineString(lineStrings: seq<LineString>, srid: int) {

    predicate Valid() {
      |lineStrings| >= MinimumItems
    }

    /** `__toString`, the WKT body: each line string as "(lng lat,lng lat,...)",
        joined by ','. */
    function ToString(): string {
      Join(Parenthesized(Bodies(lineStrings)), ",")
    }

    /** `toWKT`: the keyword, then the body in parentheses, whose WKT
        argument is the body again. */
    function ToWkt(): (s: string)
      ensures |s| > |Keyword| && s[..|Keyword|] == Keyword
      ensures GetWktArgument(s) == ToString()
    {
      WktArgumentOf(Keyword, ToString());
      Keyword + "(" + ToString() + ")"
    }
  }

  /** The string form of each line string, in order. */
  function Bodies(lineStrings: seq<LineString>): (bodies: seq<string>)
    ensures |bodies| == |lineStrings|
    ensures forall i :: 0 <= i < |lineStrings| ==> bodies[i] == LineStringToString(lineStrings[i])
  {
    if |lineStrings| == 0 then [] else [LineStringToString(lineStrings[0])] + Bodies(lineStrings[1..])
  }

  /** Builds a MultiLineString; the collection refuses fewer than `MinimumItems` line strings. */
  function New(lineStrings: seq<LineString>, srid: int): (r: Result<MultiLineString>)
    ensures r.Success? <==> |lineStrings| >= MinimumItems
    ensures r.Success? ==> r.value.lineStrings == lineStrings && r.value.srid == srid && r.value.Valid()
    ensures r.Failure? ==> r.error == CardinalityError(MultiLineStringKind, MinimumItems)
  {
    if |lineStrings| >= MinimumItems then Success(MultiLineString(lineStrings, srid))
    else Failure(CardinalityError(MultiLineStringKind, MinimumItems))
  }

  // ---------------------------------------------------------------------------
  // The split on `\)\s*,\s*\(`.
  //
  // ')', `\s`, ',' and '(' are pairwise disjoint, so a match at a given start
  // takes each whitespace run as long as it goes.
  // ---------------------------------------------------------------------------

  /** `d` is ')', whitespace, a ',' at `c`, whitespace, '('. */
  predicate SeparatorSplit(d: string, c: nat) {
    && 1 <= c < |d| - 1 && d[0] == ')' && d[c] == ',' && d[|d| - 1] == '('
    && (forall k :: 1 <= k < c ==> IsSpace(d[k]))
    && (forall k :: c < k < |d| - 1 ==> IsSpace(d[k]))
  }

  /** A separator: ')', whitespace, one ',', whitespace, '('. */
  ghost predicate IsSeparator(d: string) {
    exists c: nat :: SeparatorSplit(d, c)
  }

  /** Length of the separator that starts at the first character of `s`, if any. */
  function SeparatorAt(s: string): (e: Option<nat>)
    ensures e.Some? ==> 3 <= e.value <= |s| && IsSeparator(s[..e.value])
  {
    if |s| == 0 || s[0] != ')' then None
    else
      var a := RunEnd(s, 1, IsSpace);
      if a < |s| && s[a] == ',' then
        var b := RunEnd(s, a + 1, IsSpace);
        if b < |s| && s[b] == '(' then
          SeparatorPrefix(s, a, b);
          Some(b + 1)
        else None
      else None
  }

  lemma SeparatorPrefix(s: string, a: nat, b: nat)
    requires 1 <= a < b < |s| && s[0] == ')' && s[a] == ',' && s[b] == '('
    requires a == RunEnd(s, 1, IsSpace) && b == RunEnd(s, a + 1, IsSpace)
    ensures IsSeparator(s[..b + 1])
  {
    var d := s[..b + 1];
    assert forall k :: 0 <= k < |d| ==> d[k] == s[k];
    assert SeparatorSplit(d, a);
  }

  /** Every separator is recognised where it starts, whatever follows it. */
  lemma SeparatorRecognized(d: string, t: string)
    requires IsSeparator(d)
    ensures SeparatorAt(d + t) == Some(|d|)
  {
    var c: nat :| SeparatorSplit(d, c);
    var s := d + t;
    assert forall k :: 0 <= k < |d| ==> s[k] == d[k];
    RunEndIs(s, 1, c, IsSpace);
    RunEndIs(s, c + 1, |d| - 1, IsSpace);
  }

  /** The pieces of a split and the separators that were matched between them. */
  datatype Splitting = Splitting(pieces: seq<string>, separators: seq<string>)

  /** The pieces with the separators put back between each two. */
  function Interleave(pieces: seq<string>, separators: seq<string>): string
    requires |pieces| == |separators| + 1
  {
    if |separators| == 0 then pieces[0]
    else pieces[0] + separators[0] + Interleave(pieces[1..], separators[1..])
  }

  lemma InterleaveHead(pieces: seq<string>, separators: seq<string>, c: char)
    requires |pieces| == |separators| + 1
    ensures Interleave([[c] + pieces[0]] + pieces[1..], separators) == [c] + Interleave(pieces, separators)
  {
    var longer := [[c] + pieces[0]] + pieces[1..];
    assert longer[1..] == pieces[1..];
  }

  lemma InterleaveMatched(s: string, e: nat, rest: Splitting)
    requires e <= |s| && |rest.pieces| == |rest.separators| + 1
    requires Interleave(rest.pieces, rest.separators) == s[e..]
    ensures Interleave([""] + rest.pieces, [s[..e]] + rest.separators) == s
  {
    var pieces, separators := [""] + rest.pieces, [s[..e]] + rest.separators;
    assert pieces[1..] == rest.pieces && separators[1..] == rest.separators;
    assert s[..e] + s[e..] == s;
  }

  lemma InterleaveUnmatched(s: string, rest: Splitting)
    requires |s| >= 1 && |rest.pieces| == |rest.separators| + 1
    requires Interleave(rest.pieces, rest.separators) == s[1..]
    ensures Interleave([[s[0]] + rest.pieces[0]] + rest.pieces[1..], rest.separators) == s
  {
    InterleaveHead(rest.pieces, rest.separators, s[0]);
    assert [s[0]] + s[1..] == s;
  }

  /** Where no separator starts, the first character joins the first piece. */
  lemma SplitUnmatched(s: string)
    requires |s| >= 1 && SeparatorAt(s).None?
    ensures Split(s).pieces == [[s[0]] + Split(s[1..]).pieces[0]] + Split(s[1..]).pieces[1..]
  {
  }

  /** Where a separator starts, the current piece ends and a new one begins after it. */
  lemma SplitMatched(s: string, e: nat)
    requires |s| >= 1 && SeparatorAt(s) == Some(e)
    ensures Split(s).pieces == [""] + Split(s[e..]).pieces
  {
  }

  /** PHP `preg_split`: the text between successive separators, left to
      right, empty pieces kept; one piece more than there are separators,
      and putting the separators back gives the text. */
  function Split(s: string): (r: Splitting)
    ensures |r.pieces| == |r.separators| + 1
    ensures forall k :: 0 <= k < |r.separators| ==> IsSeparator(r.separators[k])
    ensures Interleave(r.pieces, r.separators) == s
    decreases |s|
  {
    if |s| == 0 then Splitting([""], [])
    else
      match SeparatorAt(s)
      case Some(e) =>
        var rest := Split(s[e..]);
        InterleaveMatched(s, e, rest);
        Splitting([""] + rest.pieces, [s[..e]] + rest.separators)
      case None =>
        var rest := Split(s[1..]);
        InterleaveUnmatched(s, rest);
        Splitting([[s[0]] + rest.pieces[0]] + rest.pieces[1..], rest.separators)
  }

  /** No slice of `p` is a separator. */
  ghost predicate SeparatorFree(p: string) {
    forall i, j :: 0 <= i <= j <= |p| ==> !IsSeparator(p[i..j])
  }

  /** `pieces` and `separators` cut `s` at every separator: put back
      between the pieces the separators give `s`, each separator matches
      the pattern, and no piece holds a match. */
  ghost predicate IsSplitting(s: string, pieces: seq<string>, separators: seq<string>) {
    && |pieces| == |separators| + 1
    && (forall k :: 0 <= k < |separators| ==> IsSeparator(separators[k]))
    && (forall k :: 0 <= k < |pieces| ==> SeparatorFree(pieces[k]))
    && Interleave(pieces, separators) == s
  }

  /** The first piece is where the text starts. */
  lemma InterleavePrefix(pieces: seq<string>, separators: seq<string>)
    requires |pieces| == |separators| + 1
    ensures |pieces[0]| <= |Interleave(pieces, separators)|
    ensures Interleave(pieces, separators)[..|pieces[0]|] == pieces[0]
  {
    if |separators| > 0 {
      var rest := separators[0] + Interleave(pieces[1..], separators[1..]);
      assert Interleave(pieces, separators) == pieces[0] + rest;
    }
  }

  /** A character where no separator starts, put before a separator-free
      text that follows it, leaves that text separator-free. */
  lemma SeparatorFreeCons(s: string, q: string)
    requires |s| >= 1 && SeparatorAt(s).None? && SeparatorFree(q)
    requires |q| + 1 <= |s| && s[1..|q| + 1] == q
    ensures SeparatorFree([s[0]] + q)
  {
    var p := [s[0]] + q;
    assert p == s[..|q| + 1];
    forall i, j | 0 <= i <= j <= |p| ensures !IsSeparator(p[i..j]) {
      if i > 0 {
        assert p[i..j] == q[i - 1..j - 1];
      } else if IsSeparator(p[i..j]) {
        var d := p[..j];
        assert d == s[..j];
        assert d + s[j..] == s;
        SeparatorRecognized(d, s[j..]);
        assert false;
      }
    }
  }

  lemma EmptySeparatorFree()
    ensures SeparatorFree("")
  {
    forall i, j | 0 <= i <= j <= 0 ensures !IsSeparator(""[i..j]) {
      assert ""[i..j] == "";
    }
  }

  /** An empty piece in front of separator-free pieces. */
  lemma PiecesFreeMatched(rest: seq<string>)
    requires forall k :: 0 <= k < |rest| ==> SeparatorFree(rest[k])
    ensures forall k :: 0 <= k < |rest| + 1 ==> SeparatorFree(([""] + rest)[k])
  {
    EmptySeparatorFree();
    assert forall k :: 1 <= k < |rest| + 1 ==> ([""] + rest)[k] == rest[k - 1];
  }

  /** The first character of `s`, where no separator starts, joins the first
      of separator-free pieces that `s[1..]` starts with. */
  lemma PiecesFreeUnmatched(s: string, rest: seq<string>)
    requires |s| >= 1 && SeparatorAt(s).None? && |rest| >= 1
    requires forall k :: 0 <= k < |rest| ==> SeparatorFree(rest[k])
    requires |rest[0]| + 1 <= |s| && s[1..|rest[0]| + 1] == rest[0]
    ensures forall k :: 0 <= k < |rest| ==> SeparatorFree(([[s[0]] + rest[0]] + rest[1..])[k])
  {
    SeparatorFreeCons(s, rest[0]);
    assert forall k :: 1 <= k < |rest| ==> ([[s[0]] + rest[0]] + rest[1..])[k] == rest[k];
  }

  /** No piece of a split holds a separator. */
  lemma {:induction false} SplitPiecesFree(s: string)
    ensures forall k :: 0 <= k < |Split(s).pieces| ==> SeparatorFree(Split(s).pieces[k])
    decreases |s|
  {
    if |s| == 0 {
      EmptySeparatorFree();
    } else {
      match SeparatorAt(s)
      case Some(e) =>
        SplitPiecesFree(s[e..]);
        PiecesFreeMatched(Split(s[e..]).pieces);
      case None =>
        SplitPiecesFree(s[1..]);
        var rest := Split(s[1..]);
        InterleavePrefix(rest.pieces, rest.separators);
        assert s[1..][..|rest.pieces[0]|] == rest.pieces[0];
        assert s[1..|rest.pieces[0]| + 1] == rest.pieces[0];
        PiecesFreeUnmatched(s, rest.pieces);
    }
  }

  /** `Split` cuts at every separator: no piece holds one. */
  lemma SplitComplete(s: string)
    ensures IsSplitting(s, Split(s).pieces, Split(s).separators)
  {
    SplitPiecesFree(s);
  }

  /** A prefix free of ')' extends the first piece. */
  lemma {:induction false} SplitPrefix(p: string, t: string)
    requires ')' !in p
    ensures Split(p + t).pieces == [p + Split(t).pieces[0]] + Split(t).pieces[1..]
    decreases |p|
  {
    var pieces := Split(t).pieces;
    if |p| > 0 {
      var s := p + t;
      assert s[0] == p[0] && s[1..] == p[1..] + t;
      assert SeparatorAt(s).None? by {
        assert s[0] != ')';
      }
      SplitUnmatched(s);
      SplitPrefix(p[1..], t);
      ConsAppend(p, pieces[0]);
    } else {
      assert p + t == t && p + pieces[0] == pieces[0];
      assert pieces == [pieces[0]] + pieces[1..];
    }
  }

  /** Regrouping the first character; a proof step. */
  lemma ConsAppend(p: string, x: string)
    requires |p| > 0
    ensures [p[0]] + (p[1..] + x) == p + x
  {
    assert [p[0]] + p[1..] == p;
  }

  /** A leading "),(" ends an empty piece. */
  lemma SplitAfterComma(t: string)
    ensures Split("),(" + t).pieces == [""] + Split(t).pieces
  {
    var s := "),(" + t;
    assert SeparatorSplit("),(", 1);
    SeparatorRecognized("),(", t);
    SplitMatched(s, 3);
    assert s[3..] == t;
  }

  /** Splitting undoes joining with "),(" when no piece holds ')'. */
  lemma {:induction false} SplitJoin(pieces: seq<string>)
    requires |pieces| >= 1
    requires forall k :: 0 <= k < |pieces| ==> ')' !in pieces[k]
    ensures Split(Join(pieces, "),(")).pieces == pieces
  {
    if |pieces| == 1 {
      SplitPrefix(pieces[0], "");
      assert pieces[0] + "" == pieces[0];
    } else {
      var tail := Join(pieces[1..], "),(");
      SplitJoin(pieces[1..]);
      assert Join(pieces, "),(") == pieces[0] + ("),(" + tail);
      SplitPrefix(pieces[0], "),(" + tail);
      SplitAfterComma(tail);
      assert pieces[0] + "" == pieces[0];
      assert [pieces[0]] + pieces[1..] == pieces;
    }
  }

  /** PHP `substr($s, 1, -1)`: drops the first and the last character; a
      string shorter than two characters gives "". */
  function Strip(s: string): (r: string)
    ensures |s| >= 2 ==> |r| == |s| - 2 && forall k :: 0 <= k < |r| ==> r[k] == s[k + 1]
    ensures |s| < 2 ==> r == ""
  {
    if |s| < 2 then "" else s[1..|s| - 1]
  }

  lemma StripParentheses(x: string)
    ensures Strip("(" + x + ")") == x
  {
    assert ("(" + x + ")")[1..|x| + 1] == x;
  }

  // ---------------------------------------------------------------------------
  // WKT
  // ---------------------------------------------------------------------------

  /** The pieces `fromString` reads as line strings. */
  function Pieces(wktArgument: string): (pieces: seq<string>)
    ensures |pieces| >= 1
  {
    Split(Strip(Trim(wktArgument))).pieces
  }

  /** The pieces cut the trimmed argument, without its first and last
      character, at every separator. */
  lemma PiecesCutBody(wktArgument: string)
    ensures exists separators :: IsSplitting(Strip(Trim(wktArgument)), Pieces(wktArgument), separators)
  {
    var body := Strip(Trim(wktArgument));
    SplitComplete(body);
    assert IsSplitting(body, Pieces(wktArgument), Split(body).separators);
  }

  /** `fromString`: trims the argument, drops its outer parentheses, splits
      it at every separator and reads each piece as a line string, in order;
      the first piece that does not read decides the error. There is always
      at least one piece, so the collection minimum never fails here. */
  function FromString(wktArgument: string, srid: int): (r: Result<MultiLineString>)
    ensures var pieces := Pieces(wktArgument);
      && (r.Success? <==> forall i :: 0 <= i < |pieces| ==> LineStringFromString(pieces[i]).Success?)
      && (r.Success? ==> r.value.srid == srid && |r.value.lineStrings| == |pieces| == |Split(Strip(Trim(wktArgument))).separators| + 1)
      && (r.Success? ==> forall i :: 0 <= i < |pieces| ==> LineStringFromString(pieces[i]) == Success(r.value.lineStrings[i]))
      && (r.Failure? ==>
            exists i :: 0 <= i < |pieces| && LineStringFromString(pieces[i]) == Failure(r.error)
              && forall k :: 0 <= k < i ==> LineStringFromString(pieces[k]).Success?)
      && (r.Failure? ==> r.error == MalformedWkt || r.error == CardinalityError(LineStringKind, LineStringMinimum))
  {
    var pieces := Pieces(wktArgument);
    match MapAll(pieces, LineStringFromString)
    case Failure(e) => Failure(e)
    case Success(lineStrings) => New(lineStrings, srid)
  }

  /** `fromWkt`, inherited: reads the argument of the WKT text; the SRID is kept. */
  function FromWkt(wkt: string, srid: int): (r: Result<MultiLineString>)
    ensures r.Success? <==> forall i :: 0 <= i < |Pieces(GetWktArgument(wkt))| ==> LineStringFromString(Pieces(GetWktArgument(wkt))[i]).Success?
    ensures r.Success? ==> r.value.srid == srid
  {
    FromString(GetWktArgument(wkt), srid)
  }

  /** The string form is the line strings' bodies joined by "),(" inside one
      pair of parentheses, or "" when there is no line string. */
  lemma ToStringForm(m: MultiLineString)
    ensures |m.lineStrings| >= 1 ==> m.ToString() == "(" + Join(Bodies(m.lineStrings), "),(") + ")"
    ensures |m.lineStrings| == 0 ==> m.ToString() == ""
  {
    if |m.lineStrings| >= 1 {
      JoinParenthesized(Bodies(m.lineStrings));
    }
  }

  /** Reading every body gives the line strings back. */
  lemma ReadBodies(lineStrings: seq<LineString>)
    ensures MapAll(Bodies(lineStrings), LineStringFromString) == Success(lineStrings)
  {
    var bodies := Bodies(lineStrings);
    forall i | 0 <= i < |bodies| ensures LineStringFromString(bodies[i]) == Success(lineStrings[i]) {
      LineStringRoundTrip(lineStrings[i]);
    }
    MapAllPointwise(bodies, LineStringFromString, lineStrings);
  }

  /** Round trip: reading the string form of a MultiLineString gives it back,
      with the SRID given. */
  lemma RoundTrip(m: MultiLineString)
    requires m.Valid()
    ensures FromString(m.ToString(), m.srid) == Success(m)
  {
    PiecesOfToString(m);
    ReadBodies(m.lineStrings);
  }

  /** The pieces of the string form are the bodies of the line strings. */
  lemma PiecesOfToString(m: MultiLineString)
    requires m.Valid()
    ensures Pieces(m.ToString()) == Bodies(m.lineStrings)
  {
    var bodies := Bodies(m.lineStrings);
    var inner := Join(bodies, "),(");
    ToStringForm(m);
    ParenthesizedEnds(inner);
    TrimUnchanged("(" + inner + ")");
    StripParentheses(inner);
    forall k | 0 <= k < |bodies| ensures ')' !in bodies[k] {
      JoinedPairsNoParen(m.lineStrings[k]);
    }
    SplitJoin(bodies);
  }

  /** Round trip through the whole WKT text. */
  lemma WktRoundTrip(m: MultiLineString)
    requires m.Valid()
    ensures FromWkt(m.ToWkt(), m.srid) == Success(m)
  {
    RoundTrip(m);
  }

  // ---------------------------------------------------------------------------
  // GeoJSON
  // ---------------------------------------------------------------------------

  /** The position lists of the line strings, in order. */
  function LinesOf(lineStrings: seq<LineString>): (lines: seq<seq<Position>>)
    ensures |lines| == |lineStrings|
    ensures forall i :: 0 <= i < |lineStrings| ==> lines[i] == PositionsOf(lineStrings[i])
  {
    if |lineStrings| == 0 then [] else [PositionsOf(lineStrings[0])] + LinesOf(lineStrings[1..])
  }

  /** The GeoJSON MultiLineString of a MultiLineString: one line per line
      string, in order, each position [lng, lat]. */
  function ToGeoJson(m: MultiLineString): (g: GeoJson)
    ensures g.GeoMultiLineString? && |g.lines| == |m.lineStrings|
    ensures forall i :: 0 <= i < |m.lineStrings| ==> |g.lines[i]| == |m.lineStrings[i]|
    ensures forall i, j :: 0 <= i < |m.lineStrings| && 0 <= j < |m.lineStrings[i]| ==>
      g.lines[i][j].x == m.lineStrings[i][j].lng && g.lines[i][j].y == m.lineStrings[i][j].lat
  {
    GeoMultiLineString(LinesOf(m.lineStrings))
  }

  /** `jsonSerialize`: collects the serialised form of every line string. */
  method JsonSerialize(m: MultiLineString) returns (g: GeoJson)
    ensures g == ToGeoJson(m)
  {
    var lineStrings: seq<seq<Position>> := [];
    for i := 0 to |m.lineStrings|
      invariant |lineStrings| == i
      invariant forall k :: 0 <= k < i ==> lineStrings[k] == PositionsOf(m.lineStrings[k])
    {
      lineStrings := lineStrings + [PositionsOf(m.lineStrings[i])];
    }
    assert lineStrings == LinesOf(m.lineStrings);
    g := GeoMultiLineString(lineStrings);
  }

  /** The line string of a GeoJSON line: each position with its axes swapped;
      fewer than two positions are refused. */
  function LineOf(positions: seq<Position>): (r: Result<LineString>)
    ensures r.Success? <==> |positions| >= LineStringMinimum
    ensures r.Success? ==> r.value == PointsOf(positions)
    ensures r.Failure? ==> r.error == CardinalityError(LineStringKind, LineStringMinimum)
  {
    NewLineString(PointsOf(positions))
  }

  /** What `fromJson` yields: a JSON error when the text does not decode, an
      invalid-GeoJSON error for any other kind than MultiLineString, a
      LineString cardinality error for the first line with fewer than two
      positions, a MultiLineString cardinality error when there is no line,
      and otherwise one line string per line with the axes swapped and the
      default SRID. */
  function FromGeoJson(input: Input): (r: Result<MultiLineString>)
    ensures Decode(input).Failure? ==> r == Failure(JsonDecodeError)
    ensures Decode(input).Success? && !Decode(input).value.GeoMultiLineString? ==>
      r == Failure(InvalidGeoJson(MultiLineStringKind, KindOf(Decode(input).value)))
    ensures Decode(input).Success? && Decode(input).value.GeoMultiLineString? ==>
      var lines := Decode(input).value.lines;
      && (r.Success? <==> |lines| >= MinimumItems && forall i :: 0 <= i < |lines| ==> |lines[i]| >= LineStringMinimum)
      && (|lines| < MinimumItems ==> r == Failure(CardinalityError(MultiLineStringKind, MinimumItems)))
      && (|lines| >= MinimumItems && r.Failure? ==> r.error == CardinalityError(LineStringKind, LineStringMinimum))
      && (r.Success? ==> r.value.srid == DefaultSrid && |r.value.lineStrings| == |lines|)
      && (r.Success? ==> forall i :: 0 <= i < |lines| ==> r.value.lineStrings[i] == PointsOf(lines[i]))
  {
    match Decode(input)
    case Failure(e) => Failure(e)
    case Success(g) =>
      if !g.GeoMultiLineString? then Failure(InvalidGeoJson(MultiLineStringKind, KindOf(g)))
      else
        match MapAll(g.lines, LineOf)
        case Failure(e) => Failure(e)
        case Success(lineStrings) => New(lineStrings, DefaultSrid)
  }

  /** `fromJson`: checks the kind, then builds a line string from each line
      of positions and the collection from the line strings. */
  method FromJson(input: Input) returns (r: Result<MultiLineString>)
    ensures r == FromGeoJson(input)
  {
    var decoded := Decode(input);
    if decoded.Failure? {
      return Failure(decoded.error);
    }
    var geoJson := decoded.value;
    if !geoJson.GeoMultiLineString? {
      return Failure(InvalidGeoJson(MultiLineStringKind, KindOf(geoJson)));
    }
    var lines := geoJson.lines;
    var lineStrings: seq<LineString> := [];
    for i := 0 to |lines|
      invariant |lineStrings| == i
      invariant forall k :: 0 <= k < i ==> LineOf(lines[k]) == Success(lineStrings[k])
    {
      var points: seq<Point> := [];
      for j := 0 to |lines[i]|
        invariant |points| == j
        invariant forall k :: 0 <= k < j ==> points[k] == PointOf(lines[i][k])
      {
        var coordinate := lines[i][j];
        points := points + [Point(coordinate.y, coordinate.x)];
      }
      assert points == PointsOf(lines[i]);
      var lineString := NewLineString(points);
      if lineString.Failure? {
        MapAllFirstFailure(lines, LineOf, i);
        return Failure(lineString.error);
      }
      lineStrings := lineStrings + [lineString.value];
    }
    MapAllPointwise(lines, LineOf, lineStrings);
    r := New(lineStrings, DefaultSrid);
  }

  /** Round trip through GeoJSON: the line strings come back; the SRID,
      which GeoJSON does not carry, becomes the default. */
  lemma JsonRoundTrip(m: MultiLineString)
    requires m.Valid()
    ensures FromGeoJson(Decoded(ToGeoJson(m))) == Success(MultiLineString(m.lineStrings, DefaultSrid))
  {
    var lines := LinesOf(m.lineStrings);
    forall i | 0 <= i < |lines| ensures LineOf(lines[i]) == Success(m.lineStrings[i]) {
      PointsOfPositionsOf(m.lineStrings[i]);
    }
    MapAllPointwise(lines, LineOf, m.lineStrings);
  }

  // ---------------------------------------------------------------------------
  // The item list and its validated setter
  // ---------------------------------------------------------------------------

  /** What storing `value` at `offset` makes of the list: only a LineString is
      accepted; no offset, or the offset just past the end, appends; an offset
      inside the list replaces that item and leaves the others. */
  function Store(items: seq<LineString>, offset: Option<nat>, value: Item): (r: Result<seq<LineString>>)
    requires offset.Some? ==> offset.value <= |items|
    ensures r.Success? <==> value.LineStringItem?
    ensures r.Failure? ==> r.error == TypeMismatch(MultiLineStringKind, ItemKind)
    ensures r.Success? && (offset.None? || offset.value == |items|) ==>
      |r.value| == |items| + 1 && r.value[..|items|] == items && r.value[|items|] == value.lineString
    ensures r.Success? && offset.Some? && offset.value < |items| ==>
      && |r.value| == |items| && r.value[offset.value] == value.lineString
      && forall k :: 0 <= k < |items| && k != offset.value ==> r.value[k] == items[k]
  {
    if !value.LineStringItem? then Failure(TypeMismatch(MultiLineStringKind, ItemKind))
    else if offset.None? || offset.value == |items| then Success(items + [value.lineString])
    else Success(items[offset.value := value.lineString])
  }

  /** A MultiLineString object: its SRID and the list of its line strings,
      which the setter changes in place. */
  class MultiLineStringObject {
    var items: seq<LineString>
    const srid: int

    predicate Valid()
      reads this
    {
      |items| >= MinimumItems
    }

    constructor (m: MultiLineString)
      requires m.Valid()
      ensures Valid() && items == m.lineStrings && srid == m.srid
    {
      items := m.lineStrings;
      srid := m.srid;
    }

    /** The value the object currently stands for. */
    function Value(): (m: MultiLineString)
      reads this
      ensures Valid() ==> m.Valid()
    {
      MultiLineString(items, srid)
    }

    /** `getLineStrings`: the items, in order. */
    function GetLineStrings(): (r: seq<LineString>)
      reads this
      ensures r == Value().lineStrings
    {
      items
    }

    /** `offsetSet`: refuses anything but a LineString, leaving the items as
        they were; otherwise appends it (no offset) or stores it at the offset. */
    method OffsetSet(offset: Option<nat>, value: Item) returns (r: Outcome)
      requires Valid()
      requires offset.Some? ==> offset.value <= |items|
      modifies this
      ensures Valid()
      ensures r.Pass? <==> Store(old(items), offset, value).Success?
      ensures r.Pass? ==> items == Store(old(items), offset, value).value
      ensures r.Fail? ==> r.error == Store(old(items), offset, value).error && items == old(items)
    {
      if !value.LineStringItem? {
        return Fail(TypeMismatch(MultiLineStringKind, ItemKind));
      }
      if offset.None? || offset.value == |items| {
        items := items + [value.lineString];
      } else {
        items := items[offset.value := value.lineString];
      }
      r := Pass;
    }
  }
}
