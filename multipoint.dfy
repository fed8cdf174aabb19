/** MultiPoint: a collection of at least one Point with an SRID, converted to
    and from the body of a WKT `MULTIPOINT(...)` and a GeoJSON MultiPoint. */
module MultiPoints {
  import opened Errors
  import opened Text
  import opened Primitives
  import opened GeoJsonObjects

  /** The WKT keyword. */
  const Keyword := "MULTIPOINT"

  /** The fewest points a MultiPoint may hold. */
  const MinimumItems := 1

  /** The SRID given to a MultiPoint when none is stated. */
  const DefaultSrid := 0

  datatype MultiPoint = MultiPoint(points: seq<Point>, srid: int) {

    predicate Valid() {
      |points| >= MinimumItems
    }

    /** `__toString`, the WKT body: each point as "(lng lat)", joined by ','
        without spaces. */
    function ToString(): string {
      Join(Parenthesized(Pairs(points)), ",")
    }

    /** `toWKT`: the keyword, then the body in parentheses, whose WKT
        argument is the body again. */
    function ToWkt(): (s: string)
      ensures |s| > |Keyword| && s[..|Keyword|] == Keyword
      ensures GetWktArgument(s) == ToString()
    {
      WktArgumentOf(Keyword, ToString());
      Keyword + "(" + ToString() + ")"
    }
  }

  /** No coordinate is negative: the points the integer pattern can read back. */
  predicate NonNegative(points: seq<Point>) {
    forall i :: 0 <= i < |points| ==> points[i].lat >= 0 && points[i].lng >= 0
  }

  /** Builds a MultiPoint; the collection refuses fewer than `MinimumItems` points. */
  function New(points: seq<Point>, srid: int): (r: Result<MultiPoint>)
    ensures r.Success? <==> |points| >= MinimumItems
    ensures r.Success? ==> r.value.points == points && r.value.srid == srid && r.value.Valid()
    ensures r.Failure? ==> r.error == CardinalityError(MultiPointKind, MinimumItems)
  {
    if |points| >= MinimumItems then Success(MultiPoint(points, srid))
    else Failure(CardinalityError(MultiPointKind, MinimumItems))
  }

  // ---------------------------------------------------------------------------
  // The scan for `\(\s*(\d+\s+\d+)\s*\)`.
  //
  // The classes `\s`, `\d`, '(' and ')' are pairwise disjoint, so at a given
  // start the pattern can only match with every run taken as long as it goes:
  // backtracking into a shorter run leaves a character the next part of the
  // pattern cannot accept. The match at a start is therefore computed by
  // measuring maximal runs.
  // ---------------------------------------------------------------------------

  /** A match of the pattern: the captured pair is s[start..stop], the match
      ends (exclusive) at `end`. */
  datatype PairMatch = PairMatch(start: nat, stop: nat, end: nat)

  /** `g` is digits up to `n`, whitespace up to `m`, and digits to its end. */
  predicate DigitPairSplit(g: string, n: nat, m: nat) {
    && 0 < n < m < |g|
    && (forall k :: 0 <= k < n ==> IsDigit(g[k]))
    && (forall k :: n <= k < m ==> IsSpace(g[k]))
    && (forall k :: m <= k < |g| ==> IsDigit(g[k]))
  }

  /** A captured pair: digits, whitespace, digits, and nothing else. */
  ghost predicate IsDigitPair(g: string) {
    exists n: nat, m: nat :: DigitPairSplit(g, n, m)
  }

  /** The match of the pattern that starts at the first character of `s`. */
  function MatchPairAt(s: string): (m: Option<PairMatch>)
    ensures m.Some? ==> 1 <= m.value.start < m.value.stop < m.value.end <= |s|
    ensures m.Some? ==> s[0] == '(' && s[m.value.end - 1] == ')'
  {
    if |s| == 0 || s[0] != '(' then None
    else
      var a := RunEnd(s, 1, IsSpace);
      var b := RunEnd(s, a, IsDigit);
      var c := RunEnd(s, b, IsSpace);
      var d := RunEnd(s, c, IsDigit);
      var e := RunEnd(s, d, IsSpace);
      if a < b < c < d && e < |s| && s[e] == ')' then Some(PairMatch(a, d, e + 1))
      else None
  }

  /** `m` is a match of `\(\s*(\d+\s+\d+)\s*\)` at the start of `s`: '(',
      whitespace, the captured digits-whitespace-digits, whitespace, ')'. */
  ghost predicate IsPairMatch(s: string, m: PairMatch) {
    && 1 <= m.start < m.stop < m.end <= |s|
    && s[0] == '(' && s[m.end - 1] == ')'
    && (forall k :: 1 <= k < m.start ==> IsSpace(s[k]))
    && IsDigitPair(s[m.start..m.stop])
    && (forall k :: m.stop <= k < m.end - 1 ==> IsSpace(s[k]))
  }

  /** `MatchPairAt` finds exactly the match of the pattern at the start, if
      there is one. */
  lemma MatchPairAtIff(s: string, m: PairMatch)
    ensures MatchPairAt(s) == Some(m) <==> IsPairMatch(s, m)
  {
    if MatchPairAt(s) == Some(m) {
      MatchedDigitPair(s);
    }
    if IsPairMatch(s, m) {
      PairMatchFound(s, m);
    }
  }

  /** Every match of the pattern at the start is found. */
  lemma PairMatchFound(s: string, m: PairMatch)
    requires IsPairMatch(s, m)
    ensures MatchPairAt(s) == Some(m)
  {
    var g := s[m.start..m.stop];
    var n: nat, q: nat :| DigitPairSplit(g, n, q);
    DigitPairInside(s, m.start, m.stop, n, q);
    RunsMatch(s, m.start, m.start + n, m.start + q, m.stop, m.end - 1);
  }

  /** A split of the slice s[a..d] is a split of `s` shifted by `a`. */
  lemma DigitPairInside(s: string, a: nat, d: nat, n: nat, q: nat)
    requires a <= d <= |s| && DigitPairSplit(s[a..d], n, q)
    ensures forall k :: a <= k < a + n ==> IsDigit(s[k])
    ensures forall k :: a + n <= k < a + q ==> IsSpace(s[k])
    ensures forall k :: a + q <= k < d ==> IsDigit(s[k])
  {
    var g := s[a..d];
    assert forall k :: a <= k < d ==> s[k] == g[k - a];
  }

  /** '(' then whitespace to `a`, digits to `b`, whitespace to `c`, digits
      to `d`, whitespace to `e` and ')' at `e` is the match at the start. */
  lemma RunsMatch(s: string, a: nat, b: nat, c: nat, d: nat, e: nat)
    requires 1 <= a < b < c < d <= e < |s| && s[0] == '(' && s[e] == ')'
    requires forall k :: 1 <= k < a ==> IsSpace(s[k])
    requires forall k :: a <= k < b ==> IsDigit(s[k])
    requires forall k :: b <= k < c ==> IsSpace(s[k])
    requires forall k :: c <= k < d ==> IsDigit(s[k])
    requires forall k :: d <= k < e ==> IsSpace(s[k])
    ensures MatchPairAt(s) == Some(PairMatch(a, d, e + 1))
  {
    RunEndIs(s, 1, a, IsSpace);
    RunEndIs(s, a, b, IsDigit);
    RunEndIs(s, b, c, IsSpace);
    RunEndIs(s, c, d, IsDigit);
    RunEndIs(s, d, e, IsSpace);
  }

  /** Whitespace around and between the numbers is accepted: "( 1\t2 )"
      matches whole, capturing "1\t2". */
  lemma PaddedPairMatched()
    ensures MatchPairAt("( 1\t2 )") == Some(PairMatch(2, 5, 7))
  {
    RunsMatch("( 1\t2 )", 2, 3, 4, 5, 6);
  }

  /** What the pattern captures is digits, whitespace, digits. */
  lemma MatchedDigitPair(s: string)
    requires MatchPairAt(s).Some?
    ensures IsDigitPair(s[MatchPairAt(s).value.start..MatchPairAt(s).value.stop])
  {
    var a := RunEnd(s, 1, IsSpace);
    var b := RunEnd(s, a, IsDigit);
    var c := RunEnd(s, b, IsSpace);
    var d := RunEnd(s, c, IsDigit);
    DigitPairAt(s, a, b, c, d);
  }

  lemma DigitPairAt(s: string, a: nat, b: nat, c: nat, d: nat)
    requires a < b < c < d <= |s|
    requires b == RunEnd(s, a, IsDigit) && c == RunEnd(s, b, IsSpace) && d == RunEnd(s, c, IsDigit)
    ensures IsDigitPair(s[a..d])
  {
    var g := s[a..d];
    assert forall k :: 0 <= k < |g| ==> g[k] == s[k + a];
    assert DigitPairSplit(g, b - a, c - a);
  }

  /** PHP `preg_match_all`: the captured pairs of every non-overlapping match,
      left to right. */
  function Scan(s: string): (groups: seq<string>)
    ensures forall k :: 0 <= k < |groups| ==> IsDigitPair(groups[k])
    decreases |s|
  {
    if |s| == 0 then []
    else
      match MatchPairAt(s)
      case Some(m) =>
        MatchedDigitPair(s);
        [s[m.start..m.stop]] + Scan(s[m.end..])
      case None => Scan(s[1..])
  }

  /** The scan finds nothing exactly when the pattern matches at no position. */
  lemma {:induction false} ScanEmpty(s: string)
    ensures Scan(s) == [] <==> forall i :: 0 <= i < |s| ==> MatchPairAt(s[i..]).None?
    decreases |s|
  {
    if |s| > 0 {
      ScanEmpty(s[1..]);
      assert s[0..] == s;
      assert forall i :: 1 <= i < |s| ==> s[1..][i - 1..] == s[i..];
    }
  }

  /** A captured pair reads as a point with non-negative coordinates: the
      first digits are the longitude, the second the latitude. */
  lemma ReadDigitPair(g: string)
    requires IsDigitPair(g)
    ensures FromPair(g).Success?
    ensures FromPair(g).value.lat >= 0 && FromPair(g).value.lng >= 0
  {
    var n: nat, m: nat :| DigitPairSplit(g, n, m);
    TrimUnchanged(g);
    RunEndIs(g, 0, n, IsNotSpace);
    RunEndIs(g, n, m, IsSpace);
    assert AllDigits(g[..n]);
    assert AllDigits(g[m..]);
  }

  /** Every captured pair reads as a point. */
  lemma ReadDigitPairs(groups: seq<string>)
    requires forall k :: 0 <= k < |groups| ==> IsDigitPair(groups[k])
    ensures MapAll(groups, FromPair).Success? && NonNegative(MapAll(groups, FromPair).value)
  {
    forall k | 0 <= k < |groups|
      ensures FromPair(groups[k]).Success?
      ensures FromPair(groups[k]).value.lat >= 0 && FromPair(groups[k]).value.lng >= 0
    {
      ReadDigitPair(groups[k]);
    }
    ReadNonNegativePairs(groups);
  }

  lemma ReadNonNegativePairs(pairs: seq<string>)
    requires forall k :: 0 <= k < |pairs| ==>
      FromPair(pairs[k]).Success? && FromPair(pairs[k]).value.lat >= 0 && FromPair(pairs[k]).value.lng >= 0
    ensures MapAll(pairs, FromPair).Success? && NonNegative(MapAll(pairs, FromPair).value)
  {
    var points := seq(|pairs|, i requires 0 <= i < |pairs| => FromPair(pairs[i]).value);
    MapAllPointwise(pairs, FromPair, points);
  }

  /** `fromString`: one point per match of the pattern in the trimmed
      argument, in order; no match leaves the collection empty, which the
      minimum refuses. */
  function FromString(wktArgument: string, srid: int): (r: Result<MultiPoint>)
    ensures var groups := Scan(Trim(wktArgument));
      && (r.Success? <==> |groups| >= MinimumItems)
      && (r.Failure? ==> r.error == CardinalityError(MultiPointKind, MinimumItems))
      && (r.Success? ==> r.value.srid == srid && |r.value.points| == |groups|)
      && (r.Success? ==> forall i :: 0 <= i < |groups| ==> FromPair(groups[i]) == Success(r.value.points[i]))
      && (r.Success? ==> NonNegative(r.value.points))
  {
    var groups := Scan(Trim(wktArgument));
    ReadDigitPairs(groups);
    New(MapAll(groups, FromPair).value, srid)
  }

  /** `fromWkt`: reads the argument of the WKT text; the SRID is kept. */
  function FromWkt(wkt: string, srid: int): (r: Result<MultiPoint>)
    ensures r.Success? <==> |Scan(Trim(GetWktArgument(wkt)))| >= MinimumItems
    ensures r.Success? ==> r.value.srid == srid
  {
    FromString(GetWktArgument(wkt), srid)
  }

  // ---------------------------------------------------------------------------
  // WKT properties
  // ---------------------------------------------------------------------------

  /** The pattern matches "(digits whitespace digits)" exactly, whatever follows it. */
  lemma MatchDigitGroup(x: string, y: string, rest: string)
    requires |x| >= 1 && |y| >= 1 && AllDigits(x) && AllDigits(y)
    ensures var n := |x| + 1 + |y|;
      MatchPairAt("(" + (x + " " + y) + ")" + rest) == Some(PairMatch(1, n + 1, n + 2))
  {
    var s := "(" + (x + " " + y) + ")" + rest;
    var b, c, d := 1 + |x|, 2 + |x|, 2 + |x| + |y|;
    assert forall k :: 1 <= k < b ==> s[k] == x[k - 1];
    assert forall k :: c <= k < d ==> s[k] == y[k - c];
    assert s[b] == ' ' && s[d] == ')';
    RunEndIs(s, 1, 1, IsSpace);
    RunEndIs(s, 1, b, IsDigit);
    RunEndIs(s, b, c, IsSpace);
    RunEndIs(s, c, d, IsDigit);
    RunEndIs(s, d, d, IsSpace);
  }

  /** The decimal form of a non-negative integer is all digits. */
  lemma NonNegativeDigits(n: int)
    requires n >= 0
    ensures AllDigits(IntToString(n))
  {
  }

  /** The pattern matches a parenthesised pair of non-negative coordinates
      exactly, whatever follows it. */
  lemma MatchWrappedPair(p: Point, rest: string)
    requires p.lat >= 0 && p.lng >= 0
    ensures var n := |ToPair(p)|;
      MatchPairAt("(" + ToPair(p) + ")" + rest) == Some(PairMatch(1, n + 1, n + 2))
  {
    NonNegativeDigits(p.lng);
    NonNegativeDigits(p.lat);
    MatchDigitGroup(IntToString(p.lng), IntToString(p.lat), rest);
  }

  /** Where the pattern matches, the scan takes the pair and resumes after the match. */
  lemma ScanMatched(s: string, m: PairMatch)
    requires MatchPairAt(s) == Some(m)
    ensures Scan(s) == [s[m.start..m.stop]] + Scan(s[m.end..])
  {
  }

  /** Where the pattern does not match, the scan moves on by one character. */
  lemma ScanUnmatched(s: string)
    requires |s| >= 1 && MatchPairAt(s).None?
    ensures Scan(s) == Scan(s[1..])
  {
  }

  /** The parts of "(" + x + ")" + rest. */
  lemma GroupSlices(x: string, rest: string)
    ensures var s := "(" + x + ")" + rest;
      |s| == |x| + 2 + |rest| && s[1..|x| + 1] == x && s[|x| + 2..] == rest
  {
    var s := "(" + x + ")" + rest;
    assert forall k :: 0 <= k < |x| ==> s[1..|x| + 1][k] == x[k];
    assert forall k :: 0 <= k < |rest| ==> s[|x| + 2..][k] == rest[k];
  }

  /** Where "(" + x + ")" is a match, the scan captures x and resumes after it. */
  lemma ScanGroup(x: string, rest: string)
    requires MatchPairAt("(" + x + ")" + rest) == Some(PairMatch(1, |x| + 1, |x| + 2))
    ensures Scan("(" + x + ")" + rest) == [x] + Scan(rest)
  {
    GroupSlices(x, rest);
    ScanMatched("(" + x + ")" + rest, PairMatch(1, |x| + 1, |x| + 2));
  }

  /** A parenthesised pair of non-negative coordinates is captured, and the
      scan resumes right after it. */
  lemma ScanWrappedPair(p: Point, rest: string)
    requires p.lat >= 0 && p.lng >= 0
    ensures Scan("(" + ToPair(p) + ")" + rest) == [ToPair(p)] + Scan(rest)
  {
    MatchWrappedPair(p, rest);
    ScanGroup(ToPair(p), rest);
  }

  /** A separating comma is skipped. */
  lemma ScanComma(t: string)
    ensures Scan("," + t) == Scan(t)
  {
    ScanUnmatched("," + t);
    assert ("," + t)[1..] == t;
  }

  /** Scanning the string form of points with non-negative coordinates finds
      exactly their pairs, in order. */
  lemma {:induction false} ScanWrapped(points: seq<Point>)
    requires NonNegative(points)
    ensures Scan(Join(Parenthesized(Pairs(points)), ",")) == Pairs(points)
  {
    if |points| > 0 {
      var pairs := Pairs(points);
      if |points| == 1 {
        var w := Parenthesized(pairs);
        assert Join(w, ",") == w[0] + "";
        ScanWrappedPair(points[0], "");
        assert Scan("") == [];
      } else {
        JoinParenthesizedCons(pairs);
        var tail := Join(Parenthesized(pairs[1..]), ",");
        assert pairs[1..] == Pairs(points[1..]);
        ScanWrapped(points[1..]);
        ScanComma(tail);
        ScanWrappedPair(points[0], "," + tail);
      }
    }
  }

  /** The string form is the pairs joined by "),(" inside one pair of
      parentheses, or "" when there is no point. */
  lemma ToStringForm(mp: MultiPoint)
    ensures |mp.points| >= 1 ==> mp.ToString() == "(" + Join(Pairs(mp.points), "),(") + ")"
    ensures |mp.points| == 0 ==> mp.ToString() == ""
  {
    if |mp.points| >= 1 {
      JoinParenthesized(Pairs(mp.points));
    }
  }

  /** The string form of a non-empty MultiPoint starts with '(' and ends
      with ')', so trimming leaves it as it is. */
  lemma ToStringTrimmed(mp: MultiPoint)
    requires mp.Valid()
    ensures Trim(mp.ToString()) == mp.ToString()
  {
    var inner := Join(Pairs(mp.points), "),(");
    JoinParenthesized(Pairs(mp.points));
    ParenthesizedEnds(inner);
    TrimUnchanged("(" + inner + ")");
  }

  /** An argument whose matches are the pairs of `points` reads as those points. */
  lemma ReadMatchedPairs(wktArgument: string, srid: int, points: seq<Point>)
    requires Scan(Trim(wktArgument)) == Pairs(points) && |points| >= MinimumItems
    ensures FromString(wktArgument, srid) == Success(MultiPoint(points, srid))
  {
    ReadPairs(points);
  }

  /** Round trip: reading the string form of a MultiPoint whose coordinates
      are non-negative gives back its points and the SRID given. */
  lemma RoundTrip(mp: MultiPoint)
    requires mp.Valid() && NonNegative(mp.points)
    ensures FromString(mp.ToString(), mp.srid) == Success(mp)
  {
    ToStringTrimmed(mp);
    ScanWrapped(mp.points);
    ReadMatchedPairs(mp.ToString(), mp.srid, mp.points);
  }

  /** Round trip through the whole WKT text. */
  lemma WktRoundTrip(mp: MultiPoint)
    requires mp.Valid() && NonNegative(mp.points)
    ensures FromWkt(mp.ToWkt(), mp.srid) == Success(mp)
  {
    RoundTrip(mp);
  }

  /** An argument with no match is refused by the minimum. */
  lemma NoMatchRefused(wktArgument: string, srid: int)
    requires Scan(Trim(wktArgument)) == []
    ensures FromString(wktArgument, srid) == Failure(CardinalityError(MultiPointKind, MinimumItems))
  {
  }

  /** Text holding no '(' holds no match. */
  lemma {:induction false} ScanWithoutParen(s: string)
    requires '(' !in s
    ensures Scan(s) == []
    decreases |s|
  {
    if |s| > 0 {
      assert s[0] != '(';
      ScanWithoutParen(s[1..]);
    }
  }

  /** No match where the first number is missing. */
  lemma NoMatchWithoutFirstNumber(s: string)
    requires |s| >= 2 && !IsDigit(s[1]) && !IsSpace(s[1])
    ensures MatchPairAt(s).None?
  {
    RunEndIs(s, 1, 1, IsSpace);
    RunEndIs(s, 1, 1, IsDigit);
  }

  /** No match where the second number is missing after "(digits whitespace". */
  lemma NoMatchWithoutSecondNumber(s: string, n: nat)
    requires 1 < n && n + 1 < |s|
    requires forall k :: 1 <= k < n ==> IsDigit(s[k])
    requires IsSpace(s[n]) && !IsDigit(s[n + 1]) && !IsSpace(s[n + 1])
    ensures MatchPairAt(s).None?
  {
    RunEndIs(s, 1, 1, IsSpace);
    RunEndIs(s, 1, n, IsDigit);
    RunEndIs(s, n, n + 1, IsSpace);
    RunEndIs(s, n + 1, n + 1, IsDigit);
  }

  /** The pattern does not match a parenthesised pair with a negative
      coordinate, whatever follows it. */
  lemma SignedGroupUnmatched(p: Point, t: string)
    requires p.lat < 0 || p.lng < 0
    ensures MatchPairAt("(" + ToPair(p) + ")" + t).None?
  {
    var x, y := IntToString(p.lng), IntToString(p.lat);
    var s := "(" + (x + " " + y) + ")" + t;
    assert s == "(" + ToPair(p) + ")" + t;
    if p.lng < 0 {
      assert s[1] == x[0] == '-';
      NoMatchWithoutFirstNumber(s);
    } else {
      NonNegativeDigits(p.lng);
      var n := |x| + 1;
      assert forall k :: 1 <= k < n ==> s[k] == x[k - 1];
      assert s[n] == ' ' && s[n + 1] == y[0] == '-';
      NoMatchWithoutSecondNumber(s, n);
    }
  }

  /** Text holding no '(' is passed over: the scan goes on with what follows. */
  lemma {:induction false} ScanSkipsParenFree(u: string, t: string)
    requires '(' !in u
    ensures Scan(u + t) == Scan(t)
    decreases |u|
  {
    if |u| > 0 {
      var s := u + t;
      assert s[0] == u[0] != '(';
      ScanUnmatched(s);
      assert s[1..] == u[1..] + t;
      ScanSkipsParenFree(u[1..], t);
    } else {
      assert u + t == t;
    }
  }

  /** A group the pattern does not match is skipped without a trace: the
      scan goes on with the text after it. */
  lemma ScanSkipsGroup(g: string, t: string)
    requires '(' !in g && MatchPairAt("(" + g + t).None?
    ensures Scan("(" + g + t) == Scan(t)
  {
    var s := "(" + g + t;
    ScanUnmatched(s);
    assert s[1..] == g + t;
    ScanSkipsParenFree(g, t);
  }

  /** A parenthesised pair with a negative coordinate is skipped, and the
      scan goes on with what follows it. */
  lemma SignedGroupSkipped(p: Point, t: string)
    requires p.lat < 0 || p.lng < 0
    ensures Scan("(" + ToPair(p) + ")" + t) == Scan(t)
  {
    var g := ToPair(p) + ")";
    assert "(" + ToPair(p) + ")" + t == "(" + g + t;
    SignedGroupUnmatched(p, t);
    ScanSkipsGroup(g, t);
  }

  /** A point with a negative coordinate is skipped: its own string form
      reads as an empty collection, which the minimum refuses. */
  lemma SignedPointSkipped(p: Point, srid: int)
    requires p.lat < 0 || p.lng < 0
    ensures FromString(MultiPoint([p], srid).ToString(), srid) == Failure(CardinalityError(MultiPointKind, MinimumItems))
  {
    var mp := MultiPoint([p], srid);
    assert mp.ToString() == "(" + ToPair(p) + ")" + "";
    ToStringTrimmed(mp);
    SignedGroupSkipped(p, "");
    assert Scan("") == [];
    NoMatchRefused(mp.ToString(), srid);
  }

  /** "(" + g + ("," + ts), where ts ends with ')', is left as it is by trimming. */
  lemma GroupListTrimmed(g: string, ts: string)
    requires |ts| >= 1 && ts[|ts| - 1] == ')'
    ensures Trim("(" + g + ("," + ts)) == "(" + g + ("," + ts)
  {
    var a := "(" + g + ("," + ts);
    assert a[0] == '(' && a[|a| - 1] == ts[|ts| - 1];
    TrimUnchanged(a);
  }

  /** A group the pattern does not match, then ',' and text ending with
      ')': trimming changes nothing and the scan goes on with the text. */
  lemma ScanAfterGroup(g: string, ts: string)
    requires '(' !in g && MatchPairAt("(" + g + ("," + ts)).None?
    requires |ts| >= 1 && ts[|ts| - 1] == ')'
    ensures Scan(Trim("(" + g + ("," + ts))) == Scan(ts)
  {
    GroupListTrimmed(g, ts);
    ScanSkipsGroup(g, "," + ts);
    ScanComma(ts);
  }

  /** Scanning a group the pattern does not match, put in front of the
      string form of a MultiPoint with non-negative coordinates, finds the
      pairs of that MultiPoint only. */
  lemma UnmatchedGroupScan(g: string, mp: MultiPoint)
    requires mp.Valid() && NonNegative(mp.points) && '(' !in g
    requires MatchPairAt("(" + g + ("," + mp.ToString())).None?
    ensures Scan(Trim("(" + g + ("," + mp.ToString()))) == Pairs(mp.points)
  {
    var ts := mp.ToString();
    ToStringForm(mp);
    ParenthesizedEnds(Join(Pairs(mp.points), "),("));
    ScanAfterGroup(g, ts);
    ScanWrapped(mp.points);
  }

  /** A group the pattern does not match, put in front of the string form
      of a MultiPoint with non-negative coordinates, is dropped silently:
      the others are read as before. */
  lemma UnmatchedGroupDropped(g: string, mp: MultiPoint)
    requires mp.Valid() && NonNegative(mp.points) && '(' !in g
    requires MatchPairAt("(" + g + ("," + mp.ToString())).None?
    ensures FromString("(" + g + ("," + mp.ToString()), mp.srid) == Success(mp)
  {
    UnmatchedGroupScan(g, mp);
    ReadMatchedPairs("(" + g + ("," + mp.ToString()), mp.srid, mp.points);
  }

  /** Regrouping "(x)" + ",t" as "(" + "x)" + ",t"; a proof step. */
  lemma RegroupGroup(x: string, t: string)
    ensures "(" + x + ")" + ("," + t) == "(" + (x + ")") + ("," + t)
  {
  }

  /** A point in front of the others is written first, then a ',' and the
      string form of the others. */
  lemma ToStringCons(p: Point, mp: MultiPoint)
    requires mp.Valid()
    ensures MultiPoint([p] + mp.points, mp.srid).ToString() == "(" + ToPair(p) + ")" + ("," + mp.ToString())
  {
    var pairs := Pairs([p] + mp.points);
    assert pairs == [ToPair(p)] + Pairs(mp.points);
    JoinParenthesizedFront(ToPair(p), Pairs(mp.points));
  }

  /** A point with a negative coordinate among others is dropped silently:
      the MultiPoint read back holds only the points after it. */
  lemma SignedPointDropped(p: Point, mp: MultiPoint)
    requires p.lat < 0 || p.lng < 0
    requires mp.Valid() && NonNegative(mp.points)
    ensures FromString(MultiPoint([p] + mp.points, mp.srid).ToString(), mp.srid) == Success(mp)
  {
    var ts := mp.ToString();
    var g := ToPair(p) + ")";
    ToStringCons(p, mp);
    SignedGroupUnmatched(p, "," + ts);
    RegroupGroup(ToPair(p), ts);
    UnmatchedGroupDropped(g, mp);
  }

  /** No match where the first number is followed by a character that is
      neither a digit nor whitespace. */
  lemma NoMatchAfterFirstNumber(s: string, n: nat)
    requires 1 < n < |s|
    requires forall k :: 1 <= k < n ==> IsDigit(s[k])
    requires !IsDigit(s[n]) && !IsSpace(s[n])
    ensures MatchPairAt(s).None?
  {
    RunEndIs(s, 1, 1, IsSpace);
    RunEndIs(s, 1, n, IsDigit);
    RunEndIs(s, n, n, IsSpace);
  }

  /** No match where the second number is followed by a character that is
      neither a digit, whitespace nor ')'. */
  lemma NoMatchAfterSecondNumber(s: string, n: nat, q: nat)
    requires 1 < n && n + 1 < q < |s|
    requires forall k :: 1 <= k < n ==> IsDigit(s[k])
    requires IsSpace(s[n]) && forall k :: n + 1 <= k < q ==> IsDigit(s[k])
    requires !IsDigit(s[q]) && !IsSpace(s[q]) && s[q] != ')'
    ensures MatchPairAt(s).None?
  {
    RunEndIs(s, 1, 1, IsSpace);
    RunEndIs(s, 1, n, IsDigit);
    RunEndIs(s, n, n + 1, IsSpace);
    RunEndIs(s, n + 1, q, IsDigit);
    RunEndIs(s, q, q, IsSpace);
  }

  /** A pair whose first number is followed by a character that is neither a
      digit nor whitespace (a decimal point, an exponent, a sign) is skipped,
      and the scan goes on with what follows it. */
  lemma NonIntegerGroupSkipped(digits: string, c: char, u: string, t: string)
    requires |digits| >= 1 && AllDigits(digits)
    requires !IsDigit(c) && !IsSpace(c) && c != '('
    requires '(' !in u
    ensures Scan("(" + (digits + [c] + u) + t) == Scan(t)
  {
    var g := digits + [c] + u;
    var s := "(" + g + t;
    var n := 1 + |digits|;
    assert forall k :: 1 <= k < n ==> s[k] == digits[k - 1];
    assert s[n] == c;
    NoMatchAfterFirstNumber(s, n);
    assert '(' !in digits by {
      assert forall k :: 0 <= k < |digits| ==> digits[k] != '(';
    }
    assert '(' !in g;
    ScanSkipsGroup(g, t);
  }

  /** A pair whose second number is followed by a character that is neither a
      digit, whitespace nor ')' (as in "(1 2.5)") is skipped, and the scan
      goes on with what follows it. */
  lemma NonIntegerSecondSkipped(x: string, y: string, c: char, u: string, t: string)
    requires |x| >= 1 && AllDigits(x) && |y| >= 1 && AllDigits(y)
    requires !IsDigit(c) && !IsSpace(c) && c != ')' && c != '('
    requires '(' !in u
    ensures Scan("(" + (x + " " + y + [c] + u) + t) == Scan(t)
  {
    var g := x + " " + y + [c] + u;
    var s := "(" + g + t;
    var n := 1 + |x|;
    var q := n + 1 + |y|;
    assert forall k :: 1 <= k < n ==> s[k] == x[k - 1];
    assert forall k :: n + 1 <= k < q ==> s[k] == y[k - n - 1];
    assert s[n] == ' ' && s[q] == c;
    NoMatchAfterSecondNumber(s, n, q);
    assert '(' !in x && '(' !in y by {
      assert forall k :: 0 <= k < |x| ==> x[k] != '(';
      assert forall k :: 0 <= k < |y| ==> y[k] != '(';
    }
    assert '(' !in g;
    ScanSkipsGroup(g, t);
  }

  /** Pairs written without their own parentheses, as in "1 2,3 4", are not
      matched: the collection comes out empty and is refused. */
  lemma BarePairsSkipped(points: seq<Point>, srid: int)
    ensures FromString(Join(Pairs(points), ","), srid) == Failure(CardinalityError(MultiPointKind, MinimumItems))
  {
    var s := Join(Pairs(points), ",");
    if |points| > 0 {
      JoinedPairsTrimmed(points);
    }
    JoinedPairsNoParen(points);
    ScanWithoutParen(s);
    NoMatchRefused(s, srid);
  }

  /** An empty argument gives no point, which the minimum refuses. */
  lemma EmptyArgumentRefused(srid: int)
    ensures FromString("", srid) == Failure(CardinalityError(MultiPointKind, MinimumItems))
  {
    assert Trim("") == "";
  }

  // ---------------------------------------------------------------------------
  // GeoJSON
  // ---------------------------------------------------------------------------

  /** The GeoJSON MultiPoint of a MultiPoint: one position [lng, lat] per point, in order. */
  function ToGeoJson(mp: MultiPoint): (g: GeoJson)
    ensures g.GeoMultiPoint? && |g.positions| == |mp.points|
    ensures forall i :: 0 <= i < |mp.points| ==>
      g.positions[i].x == mp.points[i].lng && g.positions[i].y == mp.points[i].lat
  {
    GeoMultiPoint(PositionsOf(mp.points))
  }

  /** `jsonSerialize`: collects the position of every point. */
  method JsonSerialize(mp: MultiPoint) returns (g: GeoJson)
    ensures g == ToGeoJson(mp)
  {
    var points: seq<Position> := [];
    for i := 0 to |mp.points|
      invariant |points| == i
      invariant forall k :: 0 <= k < i ==> points[k] == PositionOf(mp.points[k])
    {
      points := points + [PositionOf(mp.points[i])];
    }
    assert points == PositionsOf(mp.points);
    g := GeoMultiPoint(points);
  }

  /** What `fromJson` yields: a JSON error when the text does not decode, an
      invalid-GeoJSON error for any other kind than MultiPoint, and otherwise
      one point per position with the axes swapped and the default SRID. */
  function FromGeoJson(input: Input): (r: Result<MultiPoint>)
    ensures Decode(input).Failure? ==> r == Failure(JsonDecodeError)
    ensures Decode(input).Success? && !Decode(input).value.GeoMultiPoint? ==>
      r == Failure(InvalidGeoJson(MultiPointKind, KindOf(Decode(input).value)))
    ensures Decode(input).Success? && Decode(input).value.GeoMultiPoint? ==>
      var positions := Decode(input).value.positions;
      && (r.Success? <==> |positions| >= MinimumItems)
      && (r.Failure? ==> r.error == CardinalityError(MultiPointKind, MinimumItems))
      && (r.Success? ==> r.value.srid == DefaultSrid && |r.value.points| == |positions|)
      && (r.Success? ==> forall i :: 0 <= i < |positions| ==>
            r.value.points[i].lat == positions[i].y && r.value.points[i].lng == positions[i].x)
  {
    match Decode(input)
    case Failure(e) => Failure(e)
    case Success(g) =>
      if g.GeoMultiPoint? then New(PointsOf(g.positions), DefaultSrid)
      else Failure(InvalidGeoJson(MultiPointKind, KindOf(g)))
  }

  /** `fromJson`: checks the kind, then builds one point per position. */
  method FromJson(input: Input) returns (r: Result<MultiPoint>)
    ensures r == FromGeoJson(input)
  {
    var decoded := Decode(input);
    if decoded.Failure? {
      return Failure(decoded.error);
    }
    var geoJson := decoded.value;
    if !geoJson.GeoMultiPoint? {
      return Failure(InvalidGeoJson(MultiPointKind, KindOf(geoJson)));
    }
    var points: seq<Point> := [];
    for i := 0 to |geoJson.positions|
      invariant |points| == i
      invariant forall k :: 0 <= k < i ==> points[k] == PointOf(geoJson.positions[k])
    {
      var coordinate := geoJson.positions[i];
      points := points + [Point(coordinate.y, coordinate.x)];
    }
    assert points == PointsOf(geoJson.positions);
    r := New(points, DefaultSrid);
  }

  /** Round trip through GeoJSON: the points come back; the SRID, which
      GeoJSON does not carry, becomes the default. */
  lemma JsonRoundTrip(mp: MultiPoint)
    requires mp.Valid()
    ensures FromGeoJson(Decoded(ToGeoJson(mp))) == Success(MultiPoint(mp.points, DefaultSrid))
  {
    PointsOfPositionsOf(mp.points);
  }
}
