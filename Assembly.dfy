/** Page-level document assembly as the merge and split handlers do it with
    pdf-lib: pages are opaque values copied from a loaded document into a new
    one, in a given order. The PDF codec itself is not modelled. */
module Assembly {
  import opened Wrappers
  import opened JsText
  import opened RangeParser

  /** One page of a PDF document. Its content is never inspected; only which
      page of which source it is matters. */
  datatype Page = Page(id: nat)

  /** A document under construction (`PDFDocument.create()`): `addPage`
      appends one copied page at the end. */
  class OutputDocument {
    var pages: seq<Page>

    constructor ()
      ensures pages == []
    {
      pages := [];
    }

    method AddPage(p: Page)
      modifies this
      ensures pages == old(pages) + [p]
    {
      pages := pages + [p];
    }

    /** `copyPages(src, indices)` followed by `addPage` for each copy in turn. */
    method CopyIn(src: seq<Page>, indices: seq<int>)
      requires InBounds(indices, |src|)
      modifies this
      ensures pages == old(pages) + Select(src, indices)
    {
      for j := 0 to |indices|
        invariant pages == old(pages) + Select(src, indices[..j])
      {
        assert indices[..j + 1] == indices[..j] + [indices[j]];
        AddPage(src[indices[j]]);
      }
      assert indices[..|indices|] == indices;
    }
  }

  /** The pages of `src` at `indices`, in the order the indices are listed. */
  function Select(src: seq<Page>, indices: seq<int>): (r: seq<Page>)
    requires InBounds(indices, |src|)
    ensures |r| == |indices|
    decreases |indices|
  {
    if indices == [] then []
    else Select(src, indices[..|indices| - 1]) + [src[indices[|indices| - 1]]]
  }

  /** Page `j` of a selection is the source page at the `j`-th index. */
  lemma {:induction false} SelectAt(src: seq<Page>, indices: seq<int>, j: nat)
    requires InBounds(indices, |src|) && j < |indices|
    ensures Select(src, indices)[j] == src[indices[j]]
    decreases |indices|
  {
    if j < |indices| - 1 {
      var init := indices[..|indices| - 1];
      SelectAt(src, init, j);
    }
  }

  /** `getPageIndices()`: every page index of a document, ascending. */
  function AllIndices(n: nat): seq<int> {
    Interval(0, n - 1)
  }

  /** Copying every page index of a document copies the whole document. */
  lemma SelectAll(src: seq<Page>)
    ensures InBounds(AllIndices(|src|), |src|)
    ensures Select(src, AllIndices(|src|)) == src
  {
    var all := AllIndices(|src|);
    assert |all| == |src|;
    assert InBounds(all, |src|);
    var sel := Select(src, all);
    forall j | 0 <= j < |src| ensures sel[j] == src[j] {
      SelectAt(src, all, j);
    }
  }

  /** The pages of several documents one after the other, in list order. */
  function Concat<T>(docs: seq<seq<T>>): seq<T>
    decreases |docs|
  {
    if docs == [] then [] else Concat(docs[..|docs| - 1]) + docs[|docs| - 1]
  }

  /** Total page count of several documents. */
  function TotalPages<T>(docs: seq<seq<T>>): nat
    decreases |docs|
  {
    if docs == [] then 0 else TotalPages(docs[..|docs| - 1]) + |docs[|docs| - 1]|
  }

  /** A merge's page count is the sum of its sources' page counts. */
  lemma {:induction false} MergedPageCount<T>(docs: seq<seq<T>>)
    ensures |Concat(docs)| == TotalPages(docs)
    decreases |docs|
  {
    if docs != [] {
      MergedPageCount(docs[..|docs| - 1]);
    }
  }

  /** Merging is associative: merging `a ++ b` gives the merge of `a`
      followed by the merge of `b`. */
  lemma {:induction false} ConcatAppend<T>(a: seq<seq<T>>, b: seq<seq<T>>)
    ensures Concat(a + b) == Concat(a) + Concat(b)
    decreases |b|
  {
    if b == [] {
      assert a + b == a;
    } else {
      var init := b[..|b| - 1];
      assert (a + b)[..|a + b| - 1] == a + init;
      ConcatAppend(a, init);
    }
  }

  /** One output document per group, each holding the source pages at that
      group's indices. */
  function SplitDocs(src: seq<Page>, groups: seq<seq<int>>): (docs: seq<seq<Page>>)
    requires forall i :: 0 <= i < |groups| ==> InBounds(groups[i], |src|)
    ensures |docs| == |groups|
  {
    seq(|groups|, i requires 0 <= i < |groups| => Select(src, groups[i]))
  }

  /** Every index of a list of groups, group after group. */
  lemma {:induction false} ConcatInBounds(groups: seq<seq<int>>, n: nat)
    requires forall i :: 0 <= i < |groups| ==> InBounds(groups[i], n)
    ensures InBounds(Concat(groups), n)
    decreases |groups|
  {
    if groups != [] {
      ConcatInBounds(groups[..|groups| - 1], n);
    }
  }

  lemma {:induction false} SelectAppend(src: seq<Page>, a: seq<int>, b: seq<int>)
    requires InBounds(a, |src|) && InBounds(b, |src|)
    ensures InBounds(a + b, |src|)
    ensures Select(src, a + b) == Select(src, a) + Select(src, b)
    decreases |b|
  {
    if b != [] {
      var init := b[..|b| - 1];
      assert (a + b)[..|a + b| - 1] == a + init;
      SelectAppend(src, a, init);
    } else {
      assert a + b == a;
    }
  }

  /** Merging the outputs of a split, in group order, gives the source pages
      at every index of every group, in order. */
  lemma {:induction false} MergeOfSplit(src: seq<Page>, groups: seq<seq<int>>)
    requires forall i :: 0 <= i < |groups| ==> InBounds(groups[i], |src|)
    ensures InBounds(Concat(groups), |src|)
    ensures Concat(SplitDocs(src, groups)) == Select(src, Concat(groups))
    decreases |groups|
  {
    ConcatInBounds(groups, |src|);
    if groups != [] {
      var init := groups[..|groups| - 1];
      MergeOfSplit(src, init);
      assert SplitDocs(src, groups)[..|groups| - 1] == SplitDocs(src, init);
      ConcatInBounds(init, |src|);
      SelectAppend(src, Concat(init), groups[|groups| - 1]);
    }
  }

  /** Groups that cut the pages `0 .. n-1` into consecutive runs: each group
      starts right after the previous one ends, the first at page 0 and the
      last ending at page `n-1`. */
  predicate Tiles(groups: seq<seq<int>>, n: nat) {
    && (forall i :: 0 <= i < |groups| ==> |groups[i]| >= 1 && Contiguous(groups[i]))
    && (n == 0 <==> groups == [])
    && (groups != [] ==> groups[0][0] == 0 && Last(groups[|groups| - 1]) == n - 1)
    && (forall i :: 0 < i < |groups| ==> groups[i][0] == Last(groups[i - 1]) + 1)
  }

  function Last(g: seq<int>): int
    requires |g| >= 1
  {
    g[|g| - 1]
  }

  /** Consecutive runs from page 0 to page `n-1` cover every page once, in order. */
  lemma {:induction false} TilesCover(groups: seq<seq<int>>, n: nat)
    requires Tiles(groups, n)
    ensures Concat(groups) == AllIndices(n)
    decreases |groups|
  {
    if groups != [] {
      var init := groups[..|groups| - 1];
      var g := groups[|groups| - 1];
      if init == [] {
        assert g == Interval(0, n - 1);
      } else {
        var m := Last(init[|init| - 1]) + 1;
        assert m >= 1 by {
          ContiguousStart(groups, |init| - 1);
        }
        assert Tiles(init, m);
        TilesCover(init, m);
        assert g == Interval(m, n - 1);
        assert Interval(0, m - 1) + Interval(m, n - 1) == Interval(0, n - 1);
      }
    }
  }

  /** In a tiling, every group starts at or after page 0 and ends no earlier
      than it starts. */
  lemma {:induction false} ContiguousStart(groups: seq<seq<int>>, i: nat)
    requires forall j :: 0 <= j < |groups| ==> |groups[j]| >= 1 && Contiguous(groups[j])
    requires groups != [] && groups[0][0] == 0
    requires forall j :: 0 < j < |groups| ==> groups[j][0] == Last(groups[j - 1]) + 1
    requires i < |groups|
    ensures groups[i][0] >= 0 && Last(groups[i]) >= groups[i][0]
    decreases i
  {
    if i > 0 {
      ContiguousStart(groups, i - 1);
    }
  }

  /** Splitting a document into consecutive runs that cover it and merging
      the outputs back in order rebuilds the document. */
  lemma SplitThenMergeRebuilds(src: seq<Page>, groups: seq<seq<int>>)
    requires Tiles(groups, |src|)
    requires forall i :: 0 <= i < |groups| ==> InBounds(groups[i], |src|)
    ensures Concat(SplitDocs(src, groups)) == src
  {
    MergeOfSplit(src, groups);
    TilesCover(groups, |src|);
    SelectAll(src);
  }

  /** The `<first>-<last>` label of a split output's file name, with 1-based
      page numbers: `range[0] + 1` and `range[range.length - 1] + 1`. */
  function SplitLabel(g: seq<int>): string
    requires |g| >= 1 && g[0] >= 0 && Last(g) >= 0
  {
    Decimal(g[0] + 1) + "-" + Decimal(Last(g) + 1)
  }

  /** A split output's label, read back as a range token, denotes exactly the
      group that produced it. */
  lemma LabelRoundTrip(g: seq<int>, pageCount: nat)
    requires |g| >= 1 && InBounds(g, pageCount) && Contiguous(g)
    ensures TokenGroup(SplitLabel(g), pageCount) == Some(g)
  {
    var first, last := g[0], Last(g);
    assert first >= 0 && last >= 0 && last == first + |g| - 1;
    assert g == Interval(first, last);
    var a: nat, b: nat := first + 1, last + 1;
    assert SplitLabel(g) == Decimal(a) + "-" + Decimal(b);
    SpanToken(a, b, pageCount);
  }
}
