/** The string primitives the geometry types rely on: PHP's `trim`, `implode`
    and `explode`, the `\s` and `\d` classes of PCRE, and decimal integers. */
module Text {
  import opened Errors

  /** A character PHP's `trim` removes by default: space, tab, line feed,
      carriage return, NUL and vertical tab. */
  predicate IsTrimChar(c: char) {
    c == ' ' || c == '\t' || c == '\n' || c == '\r' || c == '\0' || c == '\U{0B}'
  }

  /** Non-empty text that neither starts nor ends with a trim character. */
  predicate IsTrimmed(s: string) {
    |s| >= 1 && !IsTrimChar(s[0]) && !IsTrimChar(s[|s| - 1])
  }

  /** The `\s` class of PCRE without Unicode properties: space, and tab, line
      feed, vertical tab, form feed and carriage return, which are the
      consecutive characters from 9 to 13. */
  predicate IsSpace(c: char) {
    c == ' ' || '\t' <= c <= '\r'
  }

  predicate IsNotSpace(c: char) {
    !IsSpace(c)
  }

  /** The `\d` class of PCRE without Unicode properties. */
  predicate IsDigit(c: char) {
    '0' <= c <= '9'
  }

  predicate AllDigits(s: string) {
    forall k :: 0 <= k < |s| ==> IsDigit(s[k])
  }

  /** End of the longest run of characters satisfying `p` that starts at `i`. */
  function RunEnd(s: string, i: nat, p: char -> bool): (j: nat)
    requires i <= |s|
    ensures i <= j <= |s|
    ensures forall k :: i <= k < j ==> p(s[k])
    ensures j < |s| ==> !p(s[j])
    decreases |s| - i
  {
    if i == |s| || !p(s[i]) then i else RunEnd(s, i + 1, p)
  }

  /** Start of the longest run of characters satisfying `p` that ends at `j`. */
  function RunStart(s: string, j: nat, p: char -> bool): (i: nat)
    requires j <= |s|
    ensures i <= j
    ensures forall k :: i <= k < j ==> p(s[k])
    ensures 0 < i ==> !p(s[i - 1])
  {
    if j == 0 || !p(s[j - 1]) then j else RunStart(s, j - 1, p)
  }

  /** A run is determined by where it stops. */
  lemma RunEndIs(s: string, i: nat, j: nat, p: char -> bool)
    requires i <= j <= |s|
    requires forall k :: i <= k < j ==> p(s[k])
    requires j < |s| ==> !p(s[j])
    ensures RunEnd(s, i, p) == j
  {
  }

  /** Cutting `s` before `i` and from `j` removes trim characters only. */
  predicate TrimCut(s: string, i: nat, j: nat) {
    && i <= j <= |s|
    && (forall k :: 0 <= k < i ==> IsTrimChar(s[k]))
    && (forall k :: j <= k < |s| ==> IsTrimChar(s[k]))
  }

  /** PHP `trim`: drops the trim characters at both ends. The result is a
      slice of `s` with only trim characters cut away before and after it,
      and it neither starts nor ends with one, so every trim character at
      either end is cut. */
  function Trim(s: string): (t: string)
    ensures exists i: nat, j: nat :: TrimCut(s, i, j) && t == s[i..j]
    ensures t == [] || IsTrimmed(t)
    ensures s == [] || IsTrimmed(s) ==> t == s
  {
    var i := RunEnd(s, 0, IsTrimChar);
    var j := RunStart(s, |s|, IsTrimChar);
    TrimEnds(s, i, j);
    if i < j then s[i..j] else assert s[i..i] == ""; ""
  }

  /** What the two runs of trim characters at the ends of `s` tell about the
      text between them. */
  lemma TrimEnds(s: string, i: nat, j: nat)
    requires i <= |s| && j <= |s|
    requires forall k :: 0 <= k < i ==> IsTrimChar(s[k])
    requires i < |s| ==> !IsTrimChar(s[i])
    requires forall k :: j <= k < |s| ==> IsTrimChar(s[k])
    requires 0 < j ==> !IsTrimChar(s[j - 1])
    ensures i < j ==> TrimCut(s, i, j) && IsTrimmed(s[i..j])
    ensures j <= i ==> TrimCut(s, i, i)
    ensures s == [] || IsTrimmed(s) ==> i == 0 && j == |s|
  {
  }

  /** Text that neither starts nor ends with a trim character is left as it is. */
  lemma TrimUnchanged(s: string)
    requires IsTrimmed(s)
    ensures Trim(s) == s
  {
  }

  /** "(" + x + ")" starts with '(' and ends with ')'. A proof step that
      spares the solver from unfolding the concatenation. */
  lemma ParenthesizedEnds(x: string)
    ensures var w := "(" + x + ")"; |w| == |x| + 2 && w[0] == '(' && w[|w| - 1] == ')'
  {
  }

  /** PHP `implode`: the pieces with `sep` between each two. */
  function Join(pieces: seq<string>, sep: string): string {
    if |pieces| == 0 then ""
    else if |pieces| == 1 then pieces[0]
    else pieces[0] + sep + Join(pieces[1..], sep)
  }

  /** A character in no piece and not in the separator is not in the joined string. */
  lemma {:induction false} JoinAvoids(pieces: seq<string>, sep: string, c: char)
    requires forall i :: 0 <= i < |pieces| ==> c !in pieces[i]
    requires c !in sep
    ensures c !in Join(pieces, sep)
  {
    if |pieces| > 1 {
      JoinAvoids(pieces[1..], sep, c);
      assert Join(pieces, sep) == pieces[0] + sep + Join(pieces[1..], sep);
    }
  }

  /** The joined string starts as the first piece starts and ends as the last
      piece ends. */
  lemma {:induction false} JoinEnds(pieces: seq<string>, sep: string)
    requires |pieces| >= 1 && forall i :: 0 <= i < |pieces| ==> |pieces[i]| >= 1
    ensures var j := Join(pieces, sep);
      |j| >= 1 && j[0] == pieces[0][0] && j[|j| - 1] == pieces[|pieces| - 1][|pieces[|pieces| - 1]| - 1]
  {
    if |pieces| > 1 {
      JoinEnds(pieces[1..], sep);
    }
  }

  /** Non-empty pieces that neither start nor end with a trim character join
      into a string that trimming leaves as it is. */
  lemma JoinTrimmed(pieces: seq<string>, sep: string)
    requires |pieces| >= 1
    requires forall i :: 0 <= i < |pieces| ==> IsTrimmed(pieces[i])
    ensures Trim(Join(pieces, sep)) == Join(pieces, sep)
  {
    JoinEnds(pieces, sep);
    TrimUnchanged(Join(pieces, sep));
  }

  /** Each string in parentheses, in order. */
  function Parenthesized(xs: seq<string>): (ys: seq<string>)
    ensures |ys| == |xs|
    ensures forall i :: 0 <= i < |xs| ==> ys[i] == "(" + xs[i] + ")"
  {
    if |xs| == 0 then [] else ["(" + xs[0] + ")"] + Parenthesized(xs[1..])
  }

  /** Joining parenthesised strings with ',' is joining the strings with "),("
      inside one pair of parentheses. */
  lemma {:induction false} JoinParenthesized(xs: seq<string>)
    requires |xs| >= 1
    ensures Join(Parenthesized(xs), ",") == "(" + Join(xs, "),(") + ")"
  {
    if |xs| > 1 {
      JoinParenthesized(xs[1..]);
      var ps := Parenthesized(xs);
      assert ps[1..] == Parenthesized(xs[1..]);
      var tail := Join(xs[1..], "),(");
      calc {
        Join(ps, ",");
        "(" + xs[0] + ")" + "," + ("(" + tail + ")");
        "(" + (xs[0] + "),(" + tail) + ")";
      }
    }
  }

  /** The first parenthesised string, then a ',' and the others. */
  lemma JoinParenthesizedCons(xs: seq<string>)
    requires |xs| >= 2
    ensures Join(Parenthesized(xs), ",") == "(" + xs[0] + ")" + ("," + Join(Parenthesized(xs[1..]), ","))
  {
    JoinParenthesizedStep(xs);
    ConcatAssociative("(" + xs[0] + ")", ",", Join(Parenthesized(xs[1..]), ","));
  }

  /** `JoinParenthesizedCons` for a list given as its first string and the
      rest. */
  lemma JoinParenthesizedFront(x: string, rest: seq<string>)
    requires |rest| >= 1
    ensures Join(Parenthesized([x] + rest), ",") == "(" + x + ")" + ("," + Join(Parenthesized(rest), ","))
  {
    assert ([x] + rest)[1..] == rest;
    JoinParenthesizedCons([x] + rest);
  }

  /** One unfolding of `Join` over parenthesised strings; a proof step. */
  lemma JoinParenthesizedStep(xs: seq<string>)
    requires |xs| >= 2
    ensures Join(Parenthesized(xs), ",") == "(" + xs[0] + ")" + "," + Join(Parenthesized(xs[1..]), ",")
  {
    assert Parenthesized(xs)[1..] == Parenthesized(xs[1..]);
  }

  /** Regrouping a concatenation; a proof step for the solver. */
  lemma ConcatAssociative(a: string, b: string, c: string)
    ensures a + b + c == a + (b + c)
  {
  }

  /** PHP `explode` with a one-character delimiter: every piece between
      two occurrences of `c`, empty pieces included. */
  function Explode(s: string, c: char): (pieces: seq<string>)
    ensures |pieces| >= 1
    ensures forall k :: 0 <= k < |pieces| ==> c !in pieces[k]
  {
    if |s| == 0 then [""]
    else if s[0] == c then [""] + Explode(s[1..], c)
    else
      var rest := Explode(s[1..], c);
      [[s[0]] + rest[0]] + rest[1..]
  }

  /** Exploding on `c` undoes joining with `c` when no piece holds `c`. */
  lemma {:induction false} ExplodeJoin(pieces: seq<string>, c: char)
    requires |pieces| >= 1
    requires forall k :: 0 <= k < |pieces| ==> c !in pieces[k]
    ensures Explode(Join(pieces, [c]), c) == pieces
  {
    if |pieces| == 1 {
      ExplodePrefix(pieces[0], "", c);
      assert pieces[0] + "" == pieces[0];
      assert Explode("", c) == [""];
    } else {
      var tail := Join(pieces[1..], [c]);
      ExplodeJoin(pieces[1..], c);
      assert Join(pieces, [c]) == pieces[0] + ([c] + tail);
      ExplodePrefix(pieces[0], [c] + tail, c);
      assert ([c] + tail)[0] == c && ([c] + tail)[1..] == tail;
      assert Explode([c] + tail, c) == [""] + pieces[1..];
      assert pieces[0] + "" == pieces[0];
    }
  }

  /** A prefix free of `c` extends the first piece. */
  lemma {:induction false} ExplodePrefix(p: string, t: string, c: char)
    requires c !in p
    ensures Explode(p + t, c) == [p + Explode(t, c)[0]] + Explode(t, c)[1..]
    decreases |p|
  {
    if |p| > 0 {
      assert (p + t)[1..] == p[1..] + t;
      ExplodePrefix(p[1..], t, c);
      assert [p[0]] + (p[1..] + Explode(t, c)[0]) == p + Explode(t, c)[0];
    } else {
      assert p + t == t;
      assert p + Explode(t, c)[0] == Explode(t, c)[0];
      assert Explode(t, c) == [Explode(t, c)[0]] + Explode(t, c)[1..];
    }
  }

  function DigitChar(d: nat): (c: char)
    requires d < 10
    ensures IsDigit(c)
  {
    (('0' as int) + d) as char
  }

  function DigitValue(c: char): (d: nat)
    requires IsDigit(c)
    ensures d < 10 && DigitChar(d) == c
  {
    (c as int) - ('0' as int)
  }

  /** Decimal digits of `n`, without leading zeros. */
  function NatToString(n: nat): (s: string)
    ensures |s| >= 1 && AllDigits(s)
  {
    if n < 10 then [DigitChar(n)] else NatToString(n / 10) + [DigitChar(n % 10)]
  }

  /** Decimal form of `n`, with a leading '-' when it is negative. */
  function IntToString(n: int): (s: string)
    ensures |s| >= 1 && (IsDigit(s[0]) || s[0] == '-') && IsDigit(s[|s| - 1])
    ensures forall k :: 0 <= k < |s| ==> IsNotSpace(s[k])
    ensures ',' !in s && '(' !in s && ')' !in s
  {
    if n < 0 then "-" + NatToString(-n) else NatToString(n)
  }

  /** The value of a non-empty run of decimal digits. */
  function ParseNat(s: string): nat
    requires |s| >= 1 && AllDigits(s)
  {
    if |s| == 1 then DigitValue(s[0])
    else 10 * ParseNat(s[..|s| - 1]) + DigitValue(s[|s| - 1])
  }

  /** Reads an optional '-' followed by at least one digit, and nothing else. */
  function ParseInt(s: string): Option<int> {
    if |s| >= 1 && AllDigits(s) then Some(ParseNat(s))
    else if |s| >= 2 && s[0] == '-' && AllDigits(s[1..]) then Some(-(ParseNat(s[1..]) as int))
    else None
  }

  lemma {:induction false} ParseNatToString(n: nat)
    ensures ParseNat(NatToString(n)) == n
  {
    if n >= 10 {
      var s := NatToString(n);
      ParseNatToString(n / 10);
      assert s[..|s| - 1] == NatToString(n / 10);
    }
  }

  /** Reading back the decimal form of an integer gives the integer. */
  lemma ParseIntToString(n: int)
    ensures ParseInt(IntToString(n)) == Some(n)
  {
    if n < 0 {
      ParseNatToString(-n);
      assert IntToString(n)[1..] == NatToString(-n);
    } else {
      ParseNatToString(n);
    }
  }
}
