/** The three HTTP handlers of the service (merge, split, download) and the
    delayed clean-up they schedule, over a model of the disk: a map from
    path to file content, plus the list of clean-up timers not yet fired. */
module Handlers {
  import opened Wrappers
  import opened JsText
  import opened RangeParser
  import opened Assembly

  type Path = string

  /** What a file on disk holds, as far as the handlers can tell. */
  datatype Content =
    | Pdf(pages: seq<Page>)      // bytes that `PDFDocument.load` accepts
    | Zip(members: seq<Path>)    // an AdmZip archive: the files added, in order
    | Unloadable                 // anything `PDFDocument.load` rejects

  /** An HTTP reply: a JSON success body, an error status with its message,
      or the file handed to `res.download`. */
  datatype Response =
    | Success(downloadUrl: string)
    | Failure(status: nat, error: string)
    | Attachment(path: Path, content: Content)

  const TooFewFiles := "Please upload at least 2 PDF files"
  const NoFile := "Please upload a PDF file"
  const InvalidRange := "Invalid page range"
  const MergeFailed := "Error merging PDFs"
  const SplitFailed := "Error splitting PDF"
  const FileNotFound := "File not found"

  /** The disk, the clean-up timers still pending (each given by the paths it
      deletes, in the order it deletes them), and whether the `results`
      directory exists: only a merge creates it, and writing into it while it
      is missing throws. */
  datatype Store = Store(files: map<Path, Content>, timers: seq<seq<Path>>, resultsDir: bool)

  /** `path.join('results', name)`, for a plain file name. */
  function ResultPath(name: string): Path {
    "results/" + name
  }

  predicate IsResultPath(p: Path) {
    |p| >= 8 && p[..8] == "results/"
  }

  function DownloadUrl(name: string): string {
    "/download/" + name
  }

  function MergedName(stamp: nat): string {
    "merged_" + Decimal(stamp) + ".pdf"
  }

  function SplitName(g: seq<int>, stamp: nat): string
    requires |g| >= 1 && g[0] >= 0 && Last(g) >= 0
  {
    "split_" + SplitLabel(g) + "_" + Decimal(stamp) + ".pdf"
  }

  function ZipName(stamp: nat): string {
    "split_results_" + Decimal(stamp) + ".zip"
  }

  /** A file name `path.join('results', name)` leaves as it is: not empty,
      no `/`, and not `.` or `..`. */
  predicate PlainName(name: string) {
    name != "" && '/' !in name && name != "." && name != ".."
  }

  /** A decimal numeral framed by a prefix and a suffix without `/` has no `/`. */
  lemma NumberedNamePlain(prefix: string, n: nat, suffix: string)
    requires '/' !in prefix && '/' !in suffix
    ensures PlainName(prefix + Decimal(n) + suffix)
  {
    var d := Decimal(n);
    DecimalDigits(n);
    var name := prefix + d + suffix;
    forall i | 0 <= i < |name| ensures name[i] != '/' {
      if i < |prefix| {
        assert name[i] == prefix[i];
      } else if i < |prefix| + |d| {
        assert name[i] == d[i - |prefix|];
      } else {
        assert name[i] == suffix[i - |prefix| - |d|];
      }
    }
    assert name[|prefix|] == d[0];
  }

  /** Every name the service hands out in a download link is plain, so its
      download path is `results/` followed by the name, as `ResultPath` says. */
  lemma IssuedNamesPlain(g: seq<int>, stamp: nat)
    requires |g| >= 1 && g[0] >= 0 && Last(g) >= 0
    ensures PlainName(MergedName(stamp)) && PlainName(ZipName(stamp)) && PlainName(SplitName(g, stamp))
  {
    NumberedNamePlain("merged_", stamp, ".pdf");
    NumberedNamePlain("split_results_", stamp, ".zip");
    var prefix := "split_" + SplitLabel(g) + "_";
    LabelChars(g);
    assert '/' !in prefix by {
      forall i | 0 <= i < |prefix| ensures prefix[i] != '/' {
        if 6 <= i < 6 + |SplitLabel(g)| {
          assert prefix[i] == SplitLabel(g)[i - 6];
        }
      }
    }
    assert prefix[0] == 's' && prefix[1] == 'p';
    NumberedNamePlain(prefix, stamp, ".pdf");
  }

  /** A label holds only digits and the dash between its two page numbers,
      so it has no `_` and no `/`, and it starts with a digit. */
  lemma LabelChars(g: seq<int>)
    requires |g| >= 1 && g[0] >= 0 && Last(g) >= 0
    ensures '_' !in SplitLabel(g) && '/' !in SplitLabel(g) && '0' <= SplitLabel(g)[0] <= '9'
  {
    var a, b := Decimal(g[0] + 1), Decimal(Last(g) + 1);
    DecimalDigits(g[0] + 1);
    DecimalDigits(Last(g) + 1);
    assert SplitLabel(g) == a + "-" + b;
    forall i | 0 <= i < |SplitLabel(g)| ensures SplitLabel(g)[i] != '_' && SplitLabel(g)[i] != '/' {
      if i < |a| {
        assert SplitLabel(g)[i] == a[i];
      } else if i > |a| {
        assert SplitLabel(g)[i] == b[i - |a| - 1];
      }
    }
  }

  /** An output name reads, at each `_`, as its tag, its label and its stamp. */
  lemma SplitNamePieces(g: seq<int>, stamp: nat)
    requires |g| >= 1 && g[0] >= 0 && Last(g) >= 0
    ensures Split(SplitName(g, stamp), '_') == ["split", SplitLabel(g), Decimal(stamp) + ".pdf"]
  {
    var lab, d := SplitLabel(g), Decimal(stamp);
    LabelChars(g);
    DecimalDigits(stamp);
    var tail := d + ".pdf";
    assert '_' !in tail by {
      forall i | 0 <= i < |tail| ensures tail[i] != '_' {
        if i < |d| {
          assert tail[i] == d[i];
        }
      }
    }
    assert SplitName(g, stamp) == "split" + ['_'] + (lab + ['_'] + tail);
    SplitCons("split", '_', lab + ['_'] + tail);
    SplitPair(lab, tail, '_');
  }

  /** Output names are unique up to the range: two outputs of a split that
      share a name were cut from the same range, so they hold the same pages. */
  lemma SameNameSameRange(g1: seq<int>, t1: nat, g2: seq<int>, t2: nat, n: nat)
    requires |g1| >= 1 && InBounds(g1, n) && Contiguous(g1)
    requires |g2| >= 1 && InBounds(g2, n) && Contiguous(g2)
    requires ResultPath(SplitName(g1, t1)) == ResultPath(SplitName(g2, t2))
    ensures g1 == g2
  {
    assert SplitName(g1, t1) == ResultPath(SplitName(g1, t1))[8..];
    assert SplitName(g2, t2) == ResultPath(SplitName(g2, t2))[8..];
    SplitNamePieces(g1, t1);
    SplitNamePieces(g2, t2);
    LabelRoundTrip(g1, n);
    LabelRoundTrip(g2, n);
  }

  /** The zip's name never equals an output's name: after `split_` the one
      has `results`, the other a digit. */
  lemma ZipIsNotAnOutput(g: seq<int>, t1: nat, t2: nat)
    requires |g| >= 1 && g[0] >= 0 && Last(g) >= 0
    ensures ResultPath(ZipName(t1)) != ResultPath(SplitName(g, t2))
  {
    var lab, d := SplitLabel(g), Decimal(t2);
    LabelChars(g);
    assert ResultPath(SplitName(g, t2))[14] == lab[0];
    assert ResultPath(ZipName(t1))[14] == 'r';
  }

  /** `fs.readFileSync` followed by `PDFDocument.load` succeeds. */
  predicate Loadable(files: map<Path, Content>, p: Path) {
    p in files && files[p].Pdf?
  }

  predicate AllLoadable(files: map<Path, Content>, ps: seq<Path>) {
    forall i :: 0 <= i < |ps| ==> Loadable(files, ps[i])
  }

  predicate Distinct(ps: seq<Path>) {
    forall i, j :: 0 <= i < j < |ps| ==> ps[i] != ps[j]
  }

  /** The disk once every listed path that exists has been deleted. */
  function Without(files: map<Path, Content>, ps: seq<Path>): map<Path, Content> {
    map p | p in files && p !in ps :: files[p]
  }

  // ---------------------------------------------------------------- merge

  /** The merge loop over the uploads, one file at a time: read and load it,
      append all its pages, delete it. Gives the pages gathered and the disk
      afterwards, or `None` with the disk as it was when a read or a load
      threw. */
  function MergeSteps(files: map<Path, Content>, uploads: seq<Path>): (Option<seq<Page>>, map<Path, Content>)
    decreases |uploads|
  {
    if uploads == [] then (Some([]), files)
    else
      var (gathered, left) := MergeSteps(files, uploads[..|uploads| - 1]);
      var p := uploads[|uploads| - 1];
      if gathered.Some? && Loadable(left, p) then (Some(gathered.value + left[p].pages), left - {p})
      else (None, left)
  }

  /** The pages of each upload, in upload order. */
  function PagesOf(files: map<Path, Content>, uploads: seq<Path>): (docs: seq<seq<Page>>)
    requires AllLoadable(files, uploads)
    ensures |docs| == |uploads|
  {
    seq(|uploads|, i requires 0 <= i < |uploads| => files[uploads[i]].pages)
  }

  /** Reply and new state of `POST /api/merge` with the uploads in order and
      `stamp` the value of `Date.now()` when the result is named. */
  function MergeOutcome(s: Store, uploads: seq<Path>, stamp: nat): (Response, Store) {
    if |uploads| < 2 then (Failure(400, TooFewFiles), s)
    else
      var (gathered, left) := MergeSteps(s.files, uploads);
      if gathered.None? then (Failure(500, MergeFailed), s.(files := left))
      else
        var path := ResultPath(MergedName(stamp));
        (Success(DownloadUrl(MergedName(stamp))), Store(left[path := Pdf(gathered.value)], s.timers + [[path]], true))
  }

  lemma WithoutStep(files: map<Path, Content>, ps: seq<Path>, p: Path)
    ensures Without(files, ps + [p]) == Without(files, ps) - {p}
  {
  }

  /** The merge loop gets through every upload exactly when the uploads are
      distinct loadable files; it then holds their pages one document after
      the other, and every upload has been deleted. */
  lemma {:induction false} MergeStepsExact(files: map<Path, Content>, uploads: seq<Path>)
    ensures MergeSteps(files, uploads).0.Some? <==> Distinct(uploads) && AllLoadable(files, uploads)
    ensures MergeSteps(files, uploads).0.Some? ==>
      MergeSteps(files, uploads) == (Some(Concat(PagesOf(files, uploads))), Without(files, uploads))
    decreases |uploads|
  {
    if uploads == [] {
      assert Without(files, uploads) == files;
    } else {
      var init := uploads[..|uploads| - 1];
      var p := uploads[|uploads| - 1];
      assert uploads == init + [p];
      MergeStepsExact(files, init);
      var (gathered, left) := MergeSteps(files, init);
      if gathered.None? {
        assert !Distinct(init) || !AllLoadable(files, init);
      } else {
        assert left == Without(files, init);
        assert Distinct(uploads) <==> Distinct(init) && p !in init;
        assert AllLoadable(files, uploads) <==> AllLoadable(files, init) && Loadable(files, p);
        if Loadable(left, p) {
          assert PagesOf(files, uploads) == PagesOf(files, init) + [files[p].pages];
          WithoutStep(files, init, p);
        }
      }
    }
  }

  /** Once a read or a load has thrown, the rest of the uploads are left alone. */
  lemma {:induction false} MergeStopped(files: map<Path, Content>, uploads: seq<Path>, k: nat)
    requires k <= |uploads| && MergeSteps(files, uploads[..k]).0.None?
    ensures MergeSteps(files, uploads) == MergeSteps(files, uploads[..k])
    decreases |uploads| - k
  {
    if k < |uploads| {
      var init := uploads[..|uploads| - 1];
      assert init[..k] == uploads[..k];
      MergeStopped(files, init, k);
    } else {
      assert uploads[..k] == uploads;
    }
  }

  /** When upload `k` is the first that cannot be read or loaded, the merge
      fails having deleted exactly the uploads before it; the rest stay. */
  lemma MergeStopsAtFirstFailure(files: map<Path, Content>, uploads: seq<Path>, k: nat)
    requires k < |uploads|
    requires Distinct(uploads[..k]) && AllLoadable(files, uploads[..k])
    requires !Loadable(Without(files, uploads[..k]), uploads[k])
    ensures MergeSteps(files, uploads) == (None, Without(files, uploads[..k]))
  {
    MergeStepsExact(files, uploads[..k]);
    assert uploads[..k + 1][..k] == uploads[..k];
    MergeStopped(files, uploads, k + 1);
  }

  /** The same upload path listed twice (two files stored under one name)
      always makes the merge fail: the second read finds the file deleted. */
  lemma RepeatedUploadFails(s: Store, uploads: seq<Path>, stamp: nat, i: nat, j: nat)
    requires i < j < |uploads| && uploads[i] == uploads[j]
    ensures MergeOutcome(s, uploads, stamp).0 == Failure(500, MergeFailed)
  {
    MergeStepsExact(s.files, uploads);
  }

  /** A merge of two or more distinct loadable uploads replies with a link
      under which the result can be downloaded; the result holds every page
      of every upload, in upload order, so its page count is the sum of
      theirs; every upload is gone, and a timer for the result is pending. */
  lemma MergeSucceeds(s: Store, uploads: seq<Path>, stamp: nat)
    requires |uploads| >= 2 && Distinct(uploads) && AllLoadable(s.files, uploads)
    ensures var (r, t) := MergeOutcome(s, uploads, stamp);
      var name := MergedName(stamp);
      && r == Success(DownloadUrl(name))
      && Resolve(t.files, name) == Some(Pdf(Concat(PagesOf(s.files, uploads))))
      && |Concat(PagesOf(s.files, uploads))| == TotalPages(PagesOf(s.files, uploads))
      && (forall i :: 0 <= i < |uploads| && !IsResultPath(uploads[i]) ==> uploads[i] !in t.files)
      && t.timers == s.timers + [[ResultPath(name)]]
      && t.resultsDir
  {
    MergeStepsExact(s.files, uploads);
    MergedPageCount(PagesOf(s.files, uploads));
    var name := MergedName(stamp);
    forall i | 0 <= i < |uploads| && !IsResultPath(uploads[i])
      ensures uploads[i] != ResultPath(name)
    {
      assert ResultPath(name)[..8] == "results/";
    }
  }

  // ---------------------------------------------------------------- split

  /** Every group is a non-empty run of pages of an `n`-page document, as
      the range parser returns them. */
  predicate ValidGroups(groups: seq<seq<int>>, n: nat) {
    forall i :: 0 <= i < |groups| ==> |groups[i]| >= 1 && InBounds(groups[i], n) && Contiguous(groups[i])
  }

  /** The split loop after `k` groups: the disk with one new PDF per group
      (a later file of the same name overwrites an earlier one), and the
      paths written, in group order. `clock(i)` is the `Date.now()` value
      read for group `i`. */
  function SplitWrites(files: map<Path, Content>, src: seq<Page>, groups: seq<seq<int>>,
                       clock: nat -> nat, k: nat): (w: (map<Path, Content>, seq<Path>))
    requires k <= |groups| && ValidGroups(groups, |src|)
    ensures |w.1| == k
    decreases k
  {
    if k == 0 then (files, [])
    else
      var (written, outputs) := SplitWrites(files, src, groups, clock, k - 1);
      var p := ResultPath(SplitName(groups[k - 1], clock(k - 1)));
      (written[p := Pdf(Select(src, groups[k - 1]))], outputs + [p])
  }

  /** Output `i` is named after group `i`, with the `i`-th clock reading. */
  lemma {:induction false} SplitWritesName(files: map<Path, Content>, src: seq<Page>, groups: seq<seq<int>>,
                                           clock: nat -> nat, k: nat, i: nat)
    requires k <= |groups| && ValidGroups(groups, |src|) && i < k
    ensures SplitWrites(files, src, groups, clock, k).1[i] == ResultPath(SplitName(groups[i], clock(i)))
    decreases k
  {
    if i < k - 1 {
      var earlier := SplitWrites(files, src, groups, clock, k - 1).1;
      assert SplitWrites(files, src, groups, clock, k).1[i] == earlier[i];
      SplitWritesName(files, src, groups, clock, k - 1, i);
    }
  }

  /** The split loop only adds or overwrites files; it never deletes one. */
  lemma {:induction false} SplitWritesKeeps(files: map<Path, Content>, src: seq<Page>, groups: seq<seq<int>>,
                                            clock: nat -> nat, k: nat, p: Path)
    requires k <= |groups| && ValidGroups(groups, |src|) && p in files
    ensures p in SplitWrites(files, src, groups, clock, k).0
    decreases k
  {
    if k > 0 {
      SplitWritesKeeps(files, src, groups, clock, k - 1, p);
    }
  }

  /** Files the split loop does not name are kept as they were. */
  lemma {:induction false} SplitWritesFrame(files: map<Path, Content>, src: seq<Page>, groups: seq<seq<int>>,
                                            clock: nat -> nat, k: nat, p: Path)
    requires k <= |groups| && ValidGroups(groups, |src|)
    requires p !in SplitWrites(files, src, groups, clock, k).1
    ensures var written := SplitWrites(files, src, groups, clock, k).0;
      && (p in written <==> p in files)
      && (p in files ==> written[p] == files[p])
    decreases k
  {
    if k > 0 {
      var (before, earlier) := SplitWrites(files, src, groups, clock, k - 1);
      var outputs := SplitWrites(files, src, groups, clock, k).1;
      assert outputs[..k - 1] == earlier;
      assert p !in earlier;
      SplitWritesFrame(files, src, groups, clock, k - 1, p);
    }
  }

  /** Output `i` holds exactly the pages of group `i`: a later output with
      the same name was cut from the same range and rewrites the same pages. */
  lemma {:induction false} SplitWritesContent(files: map<Path, Content>, src: seq<Page>, groups: seq<seq<int>>,
                                              clock: nat -> nat, k: nat, i: nat)
    requires k <= |groups| && ValidGroups(groups, |src|)
    requires i < k
    ensures var (written, outputs) := SplitWrites(files, src, groups, clock, k);
      outputs[i] in written && written[outputs[i]] == Pdf(Select(src, groups[i]))
    decreases k
  {
    var (written, outputs) := SplitWrites(files, src, groups, clock, k);
    var (before, earlier) := SplitWrites(files, src, groups, clock, k - 1);
    if i < k - 1 {
      assert outputs[i] == earlier[i];
      SplitWritesContent(files, src, groups, clock, k - 1, i);
      if outputs[i] == outputs[k - 1] {
        SplitWritesName(files, src, groups, clock, k, i);
        SplitWritesName(files, src, groups, clock, k, k - 1);
        SameNameSameRange(groups[i], clock(i), groups[k - 1], clock(k - 1), |src|);
      }
    }
  }

  /** Reply and new state of `POST /api/split` for the uploaded file (if
      any) and the `pages` form field (if any). `clock(i)` is the `Date.now()`
      value read for output `i`; the zip is named with the next reading. */
  function SplitOutcome(s: Store, upload: Option<Path>, pages: Option<string>, clock: nat -> nat): (Response, Store) {
    if upload.None? then (Failure(400, NoFile), s)
    else if !Loadable(s.files, upload.value) then (Failure(500, SplitFailed), s)
    else
      var src := s.files[upload.value].pages;
      var ranges := PageRanges(pages, |src|);
      if ranges.None? || ranges.value == [] then
        (Failure(400, InvalidRange), s.(files := s.files - {upload.value}))
      else if !s.resultsDir then
        // the first output's writeFileSync throws: nothing is written and
        // the upload stays
        (Failure(500, SplitFailed), s)
      else
        ValidResult(pages, |src|);
        SplitDone(s, upload.value, src, ranges.value, clock)
  }

  /** The split once the ranges are known: one output per group, then the
      upload deleted, the zip written and one timer set for all of them. */
  function SplitDone(s: Store, upload: Path, src: seq<Page>, groups: seq<seq<int>>, clock: nat -> nat): (Response, Store)
    requires ValidGroups(groups, |src|)
  {
    var (written, outputs) := SplitWrites(s.files, src, groups, clock, |groups|);
    var zipName := ZipName(clock(|groups|));
    var zipPath := ResultPath(zipName);
    (Success(DownloadUrl(zipName)),
     s.(files := (written - {upload})[zipPath := Zip(outputs)], timers := s.timers + [outputs + [zipPath]]))
  }

  /** For a loadable upload, the split answers "Invalid page range" exactly
      when the range expression does not parse, and then the upload is
      deleted; the empty-result check never fires on its own. */
  lemma SplitRejectsExactly(s: Store, upload: Path, pages: Option<string>, clock: nat -> nat)
    requires Loadable(s.files, upload)
    ensures var (r, t) := SplitOutcome(s, Some(upload), pages, clock);
      && (r == Failure(400, InvalidRange) <==> PageRanges(pages, |s.files[upload].pages|).None?)
      && (r == Failure(400, InvalidRange) ==> t == s.(files := s.files - {upload}))
  {
    var ranges := PageRanges(pages, |s.files[upload].pages|);
    if ranges.Some? {
      ValidResult(pages, |s.files[upload].pages|);
    }
  }

  /** A split whose ranges parse writes one output per comma-separated token,
      in token order, and answers with the zip's download link, provided the
      `results` directory exists; otherwise the first write throws, the reply
      is 500 and nothing changes, not even the upload. */
  lemma SplitSucceeds(s: Store, upload: Path, pages: Option<string>, clock: nat -> nat)
    requires Loadable(s.files, upload)
    requires PageRanges(pages, |s.files[upload].pages|).Some?
    ensures var src := s.files[upload].pages;
      var groups := PageRanges(pages, |src|).value;
      && pages.Some?
      && |groups| == |Split(pages.value, ',')|
      && ValidGroups(groups, |src|)
      && SplitOutcome(s, Some(upload), pages, clock)
         == if s.resultsDir then SplitDone(s, upload, src, groups, clock) else (Failure(500, SplitFailed), s)
  {
    ValidResult(pages, |s.files[upload].pages|);
  }

  /** A split succeeds only once the `results` directory exists, which only a
      successful merge (or the initial disk) provides; a failed split never
      creates it. */
  lemma SplitNeedsResultsDir(s: Store, upload: Option<Path>, pages: Option<string>, clock: nat -> nat)
    ensures var (r, t) := SplitOutcome(s, upload, pages, clock);
      && (r.Success? ==> s.resultsDir)
      && t.resultsDir == s.resultsDir
      && (!s.resultsDir ==> forall p :: p in t.files ==> p in s.files && t.files[p] == s.files[p])
  {
  }

  /** A merge whose uploads all lie outside `results/` deletes nothing under
      `results/`: an earlier result stays downloadable through it (its content
      may be replaced when the new result takes the same name). */
  lemma MergeKeepsResults(s: Store, uploads: seq<Path>, stamp: nat, p: Path)
    requires forall i :: 0 <= i < |uploads| ==> !IsResultPath(uploads[i])
    requires IsResultPath(p) && p in s.files
    ensures p in MergeOutcome(s, uploads, stamp).1.files
  {
    MergeStepsKeeps(s.files, uploads, p);
  }

  /** The merge loop only deletes the uploads it has read. */
  lemma {:induction false} MergeStepsKeeps(files: map<Path, Content>, uploads: seq<Path>, p: Path)
    requires p in files && p !in uploads
    ensures p in MergeSteps(files, uploads).1
    decreases |uploads|
  {
    if uploads != [] {
      MergeStepsKeeps(files, uploads[..|uploads| - 1], p);
    }
  }

  /** A split of an upload outside `results/` deletes nothing under
      `results/`, whatever its reply: an earlier result stays downloadable
      through it (its content may be replaced when an output takes the same
      name). */
  lemma SplitKeepsResults(s: Store, upload: Option<Path>, pages: Option<string>, clock: nat -> nat, p: Path)
    requires upload.Some? ==> !IsResultPath(upload.value)
    requires IsResultPath(p) && p in s.files
    ensures p in SplitOutcome(s, upload, pages, clock).1.files
  {
    if upload.Some? && Loadable(s.files, upload.value) {
      var src := s.files[upload.value].pages;
      var ranges := PageRanges(pages, |src|);
      if ranges.Some? && ranges.value != [] && s.resultsDir {
        ValidResult(pages, |src|);
        SplitWritesKeeps(s.files, src, ranges.value, clock, |ranges.value|, p);
      }
    }
  }

  /** Every path under `results/` differs from a path outside it. */
  lemma ResultPathIsResult(name: string, p: Path)
    requires !IsResultPath(p)
    ensures IsResultPath(ResultPath(name)) && ResultPath(name) != p
  {
    assert ResultPath(name)[..8] == "results/";
  }

  /** Once the ranges are known: the reply links to the zip; the upload is
      deleted; the zip lists the outputs written, in range order; one timer
      covers every output and the zip. */
  lemma SplitDoneLayout(s: Store, upload: Path, src: seq<Page>, groups: seq<seq<int>>, clock: nat -> nat)
    requires ValidGroups(groups, |src|) && !IsResultPath(upload)
    ensures var (r, t) := SplitDone(s, upload, src, groups, clock);
      var zipPath := ResultPath(ZipName(clock(|groups|)));
      var outputs := SplitWrites(s.files, src, groups, clock, |groups|).1;
      && r == Success(DownloadUrl(ZipName(clock(|groups|))))
      && upload !in t.files
      && zipPath in t.files && t.files[zipPath] == Zip(outputs)
      && |outputs| == |groups|
      && t.timers == s.timers + [outputs + [zipPath]]
  {
    ResultPathIsResult(ZipName(clock(|groups|)), upload);
  }

  /** Output `i` of a split is named after range `i`, that name's label
      reads back as the range, and the file under that name holds exactly the
      source pages of the range. */
  lemma SplitDoneOutputs(s: Store, upload: Path, src: seq<Page>, groups: seq<seq<int>>, clock: nat -> nat, i: nat)
    requires ValidGroups(groups, |src|) && !IsResultPath(upload) && i < |groups|
    ensures var t := SplitDone(s, upload, src, groups, clock).1;
      var outputs := SplitWrites(s.files, src, groups, clock, |groups|).1;
      && outputs[i] == ResultPath(SplitName(groups[i], clock(i)))
      && TokenGroup(SplitLabel(groups[i]), |src|) == Some(groups[i])
      && outputs[i] in t.files && t.files[outputs[i]] == Pdf(SplitDocs(src, groups)[i])
  {
    var (written, outputs) := SplitWrites(s.files, src, groups, clock, |groups|);
    SplitWritesName(s.files, src, groups, clock, |groups|, i);
    LabelRoundTrip(groups[i], |src|);
    var zipPath := ResultPath(ZipName(clock(|groups|)));
    var t := SplitDone(s, upload, src, groups, clock).1;
    assert t.files == (written - {upload})[zipPath := Zip(outputs)];
    ZipIsNotAnOutput(groups[i], clock(|groups|), clock(i));
    ResultPathIsResult(SplitName(groups[i], clock(i)), upload);
    SplitWritesContent(s.files, src, groups, clock, |groups|, i);
  }

  // ---------------------------------------------------------- download

  /** `path.join('results', name)` if that file exists. */
  function Resolve(files: map<Path, Content>, name: string): Option<Content> {
    if ResultPath(name) in files then Some(files[ResultPath(name)]) else None
  }

  /** Reply of `GET /download/:filename`. */
  function DownloadOutcome(files: map<Path, Content>, name: string): (r: Response) {
    match Resolve(files, name)
    case Some(c) => Attachment(ResultPath(name), c)
    case None => Failure(404, FileNotFound)
  }

  // ------------------------------------------------------------ expiry

  /** The clean-up timer `k` fires: each of its paths that still exists is
      deleted, and the timer is no longer pending. */
  function Fire(s: Store, k: nat): Store
    requires k < |s.timers|
  {
    s.(files := Without(s.files, s.timers[k]), timers := s.timers[..k] + s.timers[k + 1..])
  }

  /** A timer firing deletes exactly its own paths, whether or not they were
      still there, and leaves every other file as it was. */
  lemma FireDeletes(s: Store, k: nat)
    requires k < |s.timers|
    ensures forall p :: p in s.timers[k] ==> p !in Fire(s, k).files
    ensures forall p :: p !in s.timers[k] ==> (p in Fire(s, k).files <==> p in s.files)
    ensures forall p :: p !in s.timers[k] && p in s.files ==> Fire(s, k).files[p] == s.files[p]
    ensures |Fire(s, k).timers| == |s.timers| - 1
  {
  }

  /** Timers `ks[0]`, `ks[1]`, ... firing in turn; `None` if one of them is
      not pending at that point. */
  function FireAll(s: Store, ks: seq<nat>): Option<Store>
    decreases |ks|
  {
    if ks == [] then Some(s)
    else if ks[0] < |s.timers| then FireAll(Fire(s, ks[0]), ks[1..])
    else None
  }

  /** Every timer in `ks` is pending when it fires and none of them deletes `p`. */
  predicate Spares(s: Store, ks: seq<nat>, p: Path)
    decreases |ks|
  {
    ks == [] || (ks[0] < |s.timers| && p !in s.timers[ks[0]] && Spares(Fire(s, ks[0]), ks[1..], p))
  }

  /** A file stays on disk, with the same content, until a timer that names
      it fires. */
  lemma {:induction false} KeptUntilExpired(s: Store, ks: seq<nat>, p: Path)
    requires p in s.files && Spares(s, ks, p)
    ensures FireAll(s, ks).Some?
    ensures p in FireAll(s, ks).value.files && FireAll(s, ks).value.files[p] == s.files[p]
    decreases |ks|
  {
    if ks != [] {
      KeptUntilExpired(Fire(s, ks[0]), ks[1..], p);
    }
  }

  /** Timers only ever delete: a file that is gone stays gone, so a second
      timer naming the same file does nothing to it. */
  lemma {:induction false} ExpiryNeverCreates(s: Store, ks: seq<nat>, p: Path)
    requires p !in s.files && FireAll(s, ks).Some?
    ensures p !in FireAll(s, ks).value.files
    decreases |ks|
  {
    if ks != [] {
      ExpiryNeverCreates(Fire(s, ks[0]), ks[1..], p);
    }
  }

  /** Once a merge result's timer has fired, its download link answers 404. */
  lemma MergedResultExpires(s: Store, uploads: seq<Path>, stamp: nat)
    requires MergeOutcome(s, uploads, stamp).0.Success?
    ensures var t := MergeOutcome(s, uploads, stamp).1;
      && |t.timers| == |s.timers| + 1
      && DownloadOutcome(Fire(t, |s.timers|).files, MergedName(stamp)) == Failure(404, FileNotFound)
  {
  }

  // ------------------------------------------------------------ server

  /** The running service: its disk and its pending clean-up timers. */
  class Server {
    var files: map<Path, Content>
    var timers: seq<seq<Path>>
    var resultsDir: bool

    function State(): Store
      reads this
    {
      Store(files, timers, resultsDir)
    }

    constructor (disk: map<Path, Content>, hasResults: bool)
      ensures State() == Store(disk, [], hasResults)
    {
      files := disk;
      timers := [];
      resultsDir := hasResults;
    }

    /** `fs.unlinkSync`, which throws on a missing file. */
    method Unlink(p: Path)
      requires p in files
      modifies this
      ensures files == old(files) - {p} && timers == old(timers) && resultsDir == old(resultsDir)
    {
      files := files - {p};
    }

    /** `POST /api/merge`. */
    method Merge(uploads: seq<Path>, stamp: nat) returns (r: Response)
      modifies this
      ensures (r, State()) == MergeOutcome(old(State()), uploads, stamp)
    {
      var merged := new OutputDocument();
      if |uploads| < 2 {
        return Failure(400, TooFewFiles);
      }
      for k := 0 to |uploads|
        invariant MergeSteps(old(files), uploads[..k]) == (Some(merged.pages), files)
        invariant timers == old(timers) && resultsDir == old(resultsDir)
      {
        var path := uploads[k];
        assert uploads[..k + 1][..k] == uploads[..k];
        if path !in files || !files[path].Pdf? {
          MergeStopped(old(files), uploads, k + 1);
          return Failure(500, MergeFailed);
        }
        var src := files[path].pages;
        SelectAll(src);
        merged.CopyIn(src, AllIndices(|src|));
        Unlink(path);
      }
      assert uploads[..|uploads|] == uploads;
      var name := MergedName(stamp);
      files := files[ResultPath(name) := Pdf(merged.pages)];
      timers := timers + [[ResultPath(name)]];
      resultsDir := true;
      r := Success(DownloadUrl(name));
    }

    /** `POST /api/split`. */
    method Split(upload: Option<Path>, pages: Option<string>, clock: nat -> nat) returns (r: Response)
      modifies this
      ensures (r, State()) == SplitOutcome(old(State()), upload, pages, clock)
    {
      if upload.None? {
        return Failure(400, NoFile);
      }
      var path := upload.value;
      if path !in files || !files[path].Pdf? {
        return Failure(500, SplitFailed);
      }
      var src := files[path].pages;
      var ranges := ParsePageRanges(pages, |src|);
      if ranges.None? || |ranges.value| == 0 {
        Unlink(path);
        return Failure(400, InvalidRange);
      }
      if !resultsDir {
        // `writeFileSync` of the first output throws
        return Failure(500, SplitFailed);
      }
      ValidResult(pages, |src|);
      r := WriteOutputs(path, src, ranges.value, clock);
    }

    /** The rest of `POST /api/split` once the ranges are parsed: write one
        PDF per range, delete the upload, write the zip, set the timer. */
    method WriteOutputs(upload: Path, src: seq<Page>, groups: seq<seq<int>>, clock: nat -> nat) returns (r: Response)
      requires upload in files && ValidGroups(groups, |src|)
      modifies this
      ensures (r, State()) == SplitDone(old(State()), upload, src, groups, clock)
    {
      var outputs: seq<Path> := [];
      for i := 0 to |groups|
        invariant (files, outputs) == SplitWrites(old(files), src, groups, clock, i)
        invariant timers == old(timers) && resultsDir == old(resultsDir)
      {
        var doc := new OutputDocument();
        doc.CopyIn(src, groups[i]);
        assert doc.pages == Select(src, groups[i]);
        var filePath := ResultPath(SplitName(groups[i], clock(i)));
        assert SplitWrites(old(files), src, groups, clock, i + 1)
          == (files[filePath := Pdf(Select(src, groups[i]))], outputs + [filePath]);
        files := files[filePath := Pdf(doc.pages)];
        outputs := outputs + [filePath];
      }
      SplitWritesKeeps(old(files), src, groups, clock, |groups|, upload);
      Unlink(upload);
      var zipName := ZipName(clock(|groups|));
      var zipPath := ResultPath(zipName);
      files := files[zipPath := Zip(outputs)];
      timers := timers + [outputs + [zipPath]];
      r := Success(DownloadUrl(zipName));
    }

    /** `GET /download/:filename`. */
    method Download(name: string) returns (r: Response)
      ensures r == DownloadOutcome(files, name)
    {
      var path := ResultPath(name);
      if path in files {
        r := Attachment(path, files[path]);
      } else {
        r := Failure(404, FileNotFound);
      }
    }

    /** The clean-up timer `k` fires. */
    method Expire(k: nat)
      requires k < |timers|
      modifies this
      ensures State() == Fire(old(State()), k)
    {
      var task := timers[k];
      for i := 0 to |task|
        invariant files == Without(old(files), task[..i])
        invariant timers == old(timers) && resultsDir == old(resultsDir)
      {
        assert task[..i + 1] == task[..i] + [task[i]];
        WithoutStep(old(files), task[..i], task[i]);
        if task[i] in files {
          Unlink(task[i]);
        }
      }
      assert task[..|task|] == task;
      timers := timers[..k] + timers[k + 1..];
    }
  }
}
