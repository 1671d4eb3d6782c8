/** `parsePageRanges(ranges, pageCount)`: turns a comma-separated page-range
    expression such as `"3,1-2"` into one group of zero-based page indices per
    token, in token order, or rejects the whole expression (`null`, here
    `None`) at the first bad token. */
module RangeParser {
  import opened Wrappers
  import opened JsText

  /** The inclusive ascending run of indices `first..last` (empty when `last < first`). */
  function Interval(first: int, last: int): (r: seq<int>)
    ensures |r| == if last < first then 0 else last - first + 1
    ensures forall i :: 0 <= i < |r| ==> r[i] == first + i
  {
    if last < first then [] else seq(last - first + 1, i => first + i)
  }

  /** Every index names a page of a `pageCount`-page document. */
  predicate InBounds(group: seq<int>, pageCount: nat) {
    forall i :: 0 <= i < |group| ==> 0 <= group[i] < pageCount
  }

  /** The group is a run of consecutive ascending indices. */
  predicate Contiguous(group: seq<int>) {
    forall i :: 0 <= i < |group| ==> group[i] == group[0] + i
  }

  /** `parseInt(piece.trim()) - 1`, with `NaN` as `None`. */
  function ZeroBased(piece: string): Option<int> {
    match ParseInt(Trim(piece))
    case None => None
    case Some(n) => Some(n - 1)
  }

  /** The two ends of a span token, each read as `parseInt(piece.trim()) - 1`;
      pieces after the second are ignored, so `"1-2-3"` reads as `"1-2"`. */
  function SpanEnds(part: string): (Option<int>, Option<int>)
    requires '-' in part
  {
    SplitSeveral(part, '-');
    var pieces := Split(part, '-');
    (ZeroBased(pieces[0]), ZeroBased(pieces[1]))
  }

  /** A span token `a-b` with both ends already made zero-based: valid only
      when both parsed, `start >= 0`, `end < pageCount` and `start <= end`. */
  function SpanGroup(start: Option<int>, end: Option<int>, pageCount: nat): (g: Option<seq<int>>)
    ensures g.Some? ==> |g.value| >= 1 && InBounds(g.value, pageCount) && Contiguous(g.value)
  {
    if start.None? || end.None? || start.value < 0 || end.value >= pageCount || start.value > end.value
    then None
    else Some(Interval(start.value, end.value))
  }

  /** A single-page token, already made zero-based: valid only inside `[0, pageCount)`. */
  function SingleGroup(page: Option<int>, pageCount: nat): (g: Option<seq<int>>)
    ensures g.Some? ==> |g.value| == 1 && InBounds(g.value, pageCount)
  {
    if page.None? || page.value < 0 || page.value >= pageCount then None
    else Some([page.value])
  }

  /** The group one comma-separated token denotes, or `None` when that token
      makes the whole expression invalid. A token with a `-` is a span; only
      the pieces before the first and second `-` are read. */
  function TokenGroup(part: string, pageCount: nat): (g: Option<seq<int>>)
    ensures g.Some? ==> |g.value| >= 1 && InBounds(g.value, pageCount) && Contiguous(g.value)
  {
    if '-' in part then
      var (start, end) := SpanEnds(part);
      SpanGroup(start, end, pageCount)
    else
      SingleGroup(ZeroBased(part), pageCount)
  }

  /** The meaning of a whole expression: missing or empty is invalid; otherwise
      valid exactly when every token is, and then one group per token, in the
      order the tokens appear. */
  function PageRanges(ranges: Option<string>, pageCount: nat): Option<seq<seq<int>>> {
    if ranges.None? || ranges.value == "" then None
    else
      var parts := Split(ranges.value, ',');
      if forall k :: 0 <= k < |parts| ==> TokenGroup(parts[k], pageCount).Some? then
        Some(seq(|parts|, k requires 0 <= k < |parts| => TokenGroup(parts[k], pageCount).value))
      else None
  }

  /** The parser as the source runs it: a loop over the tokens that returns
      `None` at the first bad one, building each span with a counting loop. */
  method ParsePageRanges(ranges: Option<string>, pageCount: nat) returns (result: Option<seq<seq<int>>>)
    ensures result == PageRanges(ranges, pageCount)
  {
    if ranges.None? || ranges.value == "" {
      return None;
    }
    var groups: seq<seq<int>> := [];
    var parts := Split(ranges.value, ',');
    for k := 0 to |parts|
      invariant |groups| == k
      invariant forall j :: 0 <= j < k ==> TokenGroup(parts[j], pageCount) == Some(groups[j])
    {
      var group := ParseToken(parts[k], pageCount);
      if group.None? {
        RejectsOnBadToken(ranges.value, pageCount, k);
        return None;
      }
      groups := groups + [group.value];
    }
    AcceptsTokenwise(ranges.value, pageCount, groups);
    return Some(groups);
  }

  /** One pass of the parser's loop body: the group of one token, or `None`
      where the source returns `null`. */
  method ParseToken(part: string, pageCount: nat) returns (group: Option<seq<int>>)
    ensures group == TokenGroup(part, pageCount)
  {
    if '-' in part {
      var (start, end) := SpanEnds(part);
      if start.None? || end.None? || start.value < 0 || end.value >= pageCount || start.value > end.value {
        return None;
      }
      var range := CountUp(start.value, end.value);
      return Some(range);
    } else {
      var page := ZeroBased(part);
      if page.None? || page.value < 0 || page.value >= pageCount {
        return None;
      }
      return Some([page.value]);
    }
  }

  /** The counting loop that fills a span's group: pushes `first`, `first + 1`,
      ..., `last` in turn. */
  method CountUp(first: int, last: int) returns (range: seq<int>)
    requires first <= last
    ensures range == Interval(first, last)
  {
    range := [];
    var i := first;
    while i <= last
      invariant first <= i <= last + 1
      invariant range == Interval(first, i - 1)
    {
      IntervalExtend(first, i - 1);
      range := range + [i];
      i := i + 1;
    }
  }

  lemma IntervalExtend(first: int, last: int)
    requires first <= last + 1
    ensures Interval(first, last) + [last + 1] == Interval(first, last + 1)
  {
  }

  /** All or nothing: one bad token makes the whole expression invalid. */
  lemma RejectsOnBadToken(expr: string, pageCount: nat, k: nat)
    requires k < |Split(expr, ',')| && TokenGroup(Split(expr, ',')[k], pageCount).None?
    ensures PageRanges(Some(expr), pageCount) == None
  {
  }

  /** When every token is valid, the groups are the tokens' groups in token order. */
  lemma AcceptsTokenwise(expr: string, pageCount: nat, groups: seq<seq<int>>)
    requires expr != ""
    requires |groups| == |Split(expr, ',')|
    requires forall j :: 0 <= j < |groups| ==> TokenGroup(Split(expr, ',')[j], pageCount) == Some(groups[j])
    ensures PageRanges(Some(expr), pageCount) == Some(groups)
  {
    var parts := Split(expr, ',');
    var spec := seq(|parts|, k requires 0 <= k < |parts| => TokenGroup(parts[k], pageCount).value);
    assert spec == groups;
  }

  /** What a valid result looks like: never empty (so the handler's
      `length === 0` test cannot fire), one group per comma-separated token in
      token order, and every group a non-empty ascending run of consecutive
      indices inside `[0, pageCount)`. */
  lemma ValidResult(ranges: Option<string>, pageCount: nat)
    requires PageRanges(ranges, pageCount).Some?
    ensures ranges.Some? && ranges.value != ""
    ensures var groups := PageRanges(ranges, pageCount).value;
      var parts := Split(ranges.value, ',');
      && 1 <= |groups| == |parts|
      && (forall k :: 0 <= k < |groups| ==> TokenGroup(parts[k], pageCount) == Some(groups[k]))
      && (forall k :: 0 <= k < |groups| ==>
            |groups[k]| >= 1 && InBounds(groups[k], pageCount) && Contiguous(groups[k]))
  {
    var groups := PageRanges(ranges, pageCount).value;
    var parts := Split(ranges.value, ',');
    forall k | 0 <= k < |groups|
      ensures TokenGroup(parts[k], pageCount) == Some(groups[k])
    {
      assert TokenGroup(parts[k], pageCount).Some?;
    }
  }

  /** A token ending in a comma leaves an empty last token, which `parseInt`
      reads as `NaN`: `"1,"` is invalid. */
  lemma TrailingCommaRejected(expr: string, pageCount: nat)
    ensures PageRanges(Some(expr + ","), pageCount) == None
  {
    SplitTrailingSeparator(expr, ',');
    var parts := Split(expr + ",", ',');
    assert parts[|parts| - 1] == "";
    assert ZeroBased("") == None;
    RejectsOnBadToken(expr + ",", pageCount, |parts| - 1);
  }

  /** A token that starts with `-` has an empty first piece, so its start is
      `NaN`: `"-3"` is invalid (negative pages are not read as numbers). */
  lemma LeadingDashRejected(rest: string, pageCount: nat)
    ensures TokenGroup("-" + rest, pageCount) == None
  {
    SplitCons("", '-', rest);
    assert "" + ['-'] + rest == "-" + rest;
    assert ZeroBased("") == None;
  }

  /** The ends of a span token are the pieces before its first and second `-`. */
  lemma SpanEndsOf(x: string, y: string, tail: string)
    requires '-' !in x && '-' !in y
    requires tail == [] || tail[0] == '-'
    ensures '-' in x + "-" + y + tail
    ensures SpanEnds(x + "-" + y + tail) == (ZeroBased(x), ZeroBased(y))
  {
    var part := x + "-" + y + tail;
    assert part == x + ['-'] + (y + tail);
    assert part[|x|] == '-';
    SplitCons(x, '-', y + tail);
    if tail == [] {
      assert y + tail == y;
      SplitWithoutSeparator(y, '-');
    } else {
      assert y + tail == y + ['-'] + tail[1..];
      SplitCons(y, '-', tail[1..]);
    }
    var pieces := Split(part, '-');
    assert pieces[0] == x && pieces[1] == y;
  }

  /** Only the first two pieces of a span are read: `"1-2-3"` acts as `"1-2"`. */
  lemma ExtraPiecesIgnored(x: string, y: string, z: string, pageCount: nat)
    requires '-' !in x && '-' !in y
    ensures TokenGroup(x + "-" + y + "-" + z, pageCount) == TokenGroup(x + "-" + y, pageCount)
  {
    SpanEndsOf(x, y, "-" + z);
    SpanEndsOf(x, y, "");
    assert x + "-" + y + "" == x + "-" + y;
    assert x + "-" + y + ("-" + z) == x + "-" + y + "-" + z;
  }

  /** A page number written in decimal is read back as its zero-based index. */
  lemma ZeroBasedDecimal(a: nat)
    ensures ZeroBased(Decimal(a)) == Some(a - 1)
    ensures '-' !in Decimal(a) && ',' !in Decimal(a)
  {
    var d := Decimal(a);
    DecimalDigits(a);
    forall i | 0 <= i < |d| ensures !IsWhiteSpace(d[i]) && d[i] != '-' {
      DigitNotWhiteSpace(d[i]);
    }
    TrimNoWhiteSpace(d);
    ParseIntDecimal(a);
  }

  /** A span token `a-b` in decimal is valid exactly when `1 <= a <= b <= pageCount`,
      and then denotes the zero-based pages `a-1` to `b-1`, ascending. */
  lemma SpanToken(a: nat, b: nat, pageCount: nat)
    ensures TokenGroup(Decimal(a) + "-" + Decimal(b), pageCount)
      == if 1 <= a <= b <= pageCount then Some(Interval(a - 1, b - 1)) else None
  {
    var da, db := Decimal(a), Decimal(b);
    ZeroBasedDecimal(a);
    ZeroBasedDecimal(b);
    SpanEndsOf(da, db, "");
    assert da + "-" + db + "" == da + "-" + db;
  }

  /** A single-page token `n` in decimal is valid exactly when `1 <= n <= pageCount`,
      and then denotes the one page `n-1`. */
  lemma SingleToken(n: nat, pageCount: nat)
    ensures TokenGroup(Decimal(n), pageCount) == if 1 <= n <= pageCount then Some([n - 1]) else None
  {
    ZeroBasedDecimal(n);
  }

  /** An expression of one token means that token's group. */
  lemma OneToken(t: string, pageCount: nat)
    requires t != "" && ',' !in t
    ensures PageRanges(Some(t), pageCount)
      == if TokenGroup(t, pageCount).Some? then Some([TokenGroup(t, pageCount).value]) else None
  {
    SplitWithoutSeparator(t, ',');
    if TokenGroup(t, pageCount).Some? {
      AcceptsTokenwise(t, pageCount, [TokenGroup(t, pageCount).value]);
    } else {
      RejectsOnBadToken(t, pageCount, 0);
    }
  }

  /** An expression of two tokens means the two groups, in that order. */
  lemma TwoTokens(t: string, u: string, pageCount: nat)
    requires ',' !in t && ',' !in u
    ensures PageRanges(Some(t + "," + u), pageCount)
      == if TokenGroup(t, pageCount).Some? && TokenGroup(u, pageCount).Some?
         then Some([TokenGroup(t, pageCount).value, TokenGroup(u, pageCount).value])
         else None
  {
    var expr := t + "," + u;
    SplitPair(t, u, ',');
    if TokenGroup(t, pageCount).None? {
      RejectsOnBadToken(expr, pageCount, 0);
    } else if TokenGroup(u, pageCount).None? {
      RejectsOnBadToken(expr, pageCount, 1);
    } else {
      AcceptsTokenwise(expr, pageCount, [TokenGroup(t, pageCount).value, TokenGroup(u, pageCount).value]);
    }
  }

  /** Groups follow token order and are not sorted: `"a,b-c"` gives the group
      of page `a` first even when `a` comes after `c` (`"3,1-2"` on five pages
      gives `[[2], [0, 1]]`). */
  lemma TokenOrderKept(a: nat, b: nat, c: nat, pageCount: nat)
    requires 1 <= a <= pageCount && 1 <= b <= c <= pageCount
    ensures PageRanges(Some(Decimal(a) + "," + (Decimal(b) + "-" + Decimal(c))), pageCount)
         == Some([[a - 1], Interval(b - 1, c - 1)])
  {
    ZeroBasedDecimal(a);
    ZeroBasedDecimal(b);
    ZeroBasedDecimal(c);
    SpanToken(b, c, pageCount);
    SingleToken(a, pageCount);
    TwoTokens(Decimal(a), Decimal(b) + "-" + Decimal(c), pageCount);
  }

  /** A piece that starts with anything but white space, a sign or a
      decimal digit reads as `NaN`. */
  lemma NonNumericPiece(t: string)
    requires t != "" && !IsWhiteSpace(t[0]) && t[0] != '+' && t[0] != '-' && DigitValue(t[0]) >= 10
    ensures ZeroBased(t) == None
  {
    assert TrimStart(t) == t;
    var u := TrimEnd(t);
    TrimEndSpec(t);
    if u != [] {
      assert u[0] == t[0];
      assert TrimStart(u) == u;
      assert UnsignedPart(u) == (u, 10);
      assert DigitRun(u, 10) == 0;
    }
  }

  /** A token whose text starts with anything but white space, a sign or a
      decimal digit is rejected, whether a single page or a span: `"abc"` and
      `"a-3"` are invalid. */
  lemma NonNumericRejected(t: string, pageCount: nat)
    requires t != "" && !IsWhiteSpace(t[0]) && t[0] != '+' && DigitValue(t[0]) >= 10
    ensures TokenGroup(t, pageCount) == None
  {
    if '-' in t {
      var i := IndexOf(t, '-');
      var x := t[..i];
      assert t == x + ['-'] + t[i + 1..];
      SplitCons(x, '-', t[i + 1..]);
      assert Split(t, '-')[0] == x;
      if x == "" {
        assert ZeroBased("") == None;
      } else {
        assert x[0] == t[0];
        NonNumericPiece(x);
      }
    } else {
      NonNumericPiece(t);
    }
  }
}
