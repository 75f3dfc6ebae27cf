/**
 * The VisionInspector's tools (src/tools/vision_tools.py) over abstract inputs: the PDF is
 * given as the result of opening it, page by page, with the outcome of extracting each embedded
 * image; the repository is given as the directories a walk of it yields.
 */
module VisionTools {
  import opened Wrappers
  import opened Text
  import opened State
  import opened Seqs

  // ------------------------------------------------------------------------------------------
  // extract_pdf_images

  /** What the PDF library reports for one extracted image. */
  datatype ImageInfo = ImageInfo(width: int, height: int, ext: string)

  /** The pages of an opened PDF, each the extraction outcome of its images in order. */
  type Pages = seq<seq<Result<ImageInfo>>>

  function FigureOf(page: nat, index: nat, info: ImageInfo): Figure {
    Figure(page, index, info.width, info.height, info.ext)
  }

  /** The figures of the page at 0-based position `p`, numbered from 1 in image order, or the
      first extraction failure on it. */
  function PageFigures(p: nat, images: seq<Result<ImageInfo>>): Result<seq<Figure>>
    decreases |images|
  {
    if |images| == 0 then Ok([])
    else
      match PageFigures(p, images[..|images| - 1])
      case Err(e) => Err(e)
      case Ok(figs) =>
        match images[|images| - 1]
        case Err(e) => Err(e)
        case Ok(info) => Ok(figs + [FigureOf(p + 1, |images|, info)])
  }

  /** The figures of all pages in page order, or the first extraction failure. */
  function DocumentFigures(pages: Pages): Result<seq<Figure>>
    decreases |pages|
  {
    if |pages| == 0 then Ok([])
    else
      match DocumentFigures(pages[..|pages| - 1])
      case Err(e) => Err(e)
      case Ok(figs) =>
        match PageFigures(|pages| - 1, pages[|pages| - 1])
        case Err(e) => Err(e)
        case Ok(more) => Ok(figs + more)
  }

  const ExtractFailure := "Failed to extract images " + "from PDF: "

  /** Every failure, in opening the file or in extracting an image, becomes one error. */
  function Extracted(doc: Result<Pages>): Result<seq<Figure>> {
    match doc
    case Err(e) => Err(ExtractFailure + e)
    case Ok(pages) =>
      match DocumentFigures(pages)
      case Err(e) => Err(ExtractFailure + e)
      case Ok(figs) => Ok(figs)
  }

  lemma {:induction false} PageErrorSticks(p: nat, images: seq<Result<ImageInfo>>, k: nat, e: string)
    requires k <= |images| && PageFigures(p, images[..k]) == Err(e)
    ensures PageFigures(p, images) == Err(e)
    decreases |images| - k
  {
    if k < |images| {
      assert images[..k + 1][..k] == images[..k];
      PageErrorSticks(p, images, k + 1, e);
    } else {
      assert images[..k] == images;
    }
  }

  lemma {:induction false} DocumentErrorSticks(pages: Pages, k: nat, e: string)
    requires k <= |pages| && DocumentFigures(pages[..k]) == Err(e)
    ensures DocumentFigures(pages) == Err(e)
    decreases |pages| - k
  {
    if k < |pages| {
      assert pages[..k + 1][..k] == pages[..k];
      DocumentErrorSticks(pages, k + 1, e);
    } else {
      assert pages[..k] == pages;
    }
  }

  /** A page yields figures exactly when every image on it is extracted; then it yields one
      figure per image, in image order, on its 1-based page number, with the position on the
      page counted from 1. */
  lemma {:induction false} PageFiguresNumbering(p: nat, images: seq<Result<ImageInfo>>)
    ensures PageFigures(p, images).Ok? <==> forall i :: 0 <= i < |images| ==> images[i].Ok?
    ensures PageFigures(p, images).Ok? ==>
      var figs := PageFigures(p, images).value;
      && |figs| == |images|
      && forall i :: 0 <= i < |figs| ==> figs[i] == FigureOf(p + 1, i + 1, images[i].value)
    decreases |images|
  {
    if |images| > 0 {
      var n := |images| - 1;
      var init := images[..n];
      PageFiguresNumbering(p, init);
      assert forall i :: 0 <= i < n ==> init[i] == images[i];
    }
  }

  /** The number of images in the document. */
  function ImageCount(pages: Pages): nat
    decreases |pages|
  {
    if |pages| == 0 then 0 else ImageCount(pages[..|pages| - 1]) + |pages[|pages| - 1]|
  }

  /** The document yields figures exactly when every image on every page is extracted. */
  lemma {:induction false} DocumentFiguresOk(pages: Pages)
    ensures DocumentFigures(pages).Ok? <==>
      forall p, i :: 0 <= p < |pages| && 0 <= i < |pages[p]| ==> pages[p][i].Ok?
    decreases |pages|
  {
    if |pages| > 0 {
      var n := |pages| - 1;
      var init := pages[..n];
      DocumentFiguresOk(init);
      PageFiguresNumbering(n, pages[n]);
      assert forall p :: 0 <= p < n ==> init[p] == pages[p];
    }
  }

  /** A document that yields figures yields one per image. */
  lemma {:induction false} DocumentFiguresCount(pages: Pages)
    requires DocumentFigures(pages).Ok?
    ensures |DocumentFigures(pages).value| == ImageCount(pages)
    decreases |pages|
  {
    if |pages| > 0 {
      var n := |pages| - 1;
      DocumentFiguresCount(pages[..n]);
      PageFiguresNumbering(n, pages[n]);
    }
  }

  /** Each figure names an existing page (from 1) and position on it (from 1), and carries
      what was extracted there. */
  lemma {:induction false} DocumentFiguresPlaces(pages: Pages)
    requires DocumentFigures(pages).Ok?
    ensures var figs := DocumentFigures(pages).value;
      forall k :: 0 <= k < |figs| ==>
        && 1 <= figs[k].page <= |pages|
        && 1 <= figs[k].index <= |pages[figs[k].page - 1]|
        && pages[figs[k].page - 1][figs[k].index - 1].Ok?
        && figs[k] == FigureOf(figs[k].page, figs[k].index,
                               pages[figs[k].page - 1][figs[k].index - 1].value)
    decreases |pages|
  {
    if |pages| > 0 {
      var n := |pages| - 1;
      var init := pages[..n];
      DocumentFiguresPlaces(init);
      PageFiguresNumbering(n, pages[n]);
      var prev := DocumentFigures(init).value;
      var more := PageFigures(n, pages[n]).value;
      var figs := DocumentFigures(pages).value;
      assert figs == prev + more;
      forall k | 0 <= k < |figs|
        ensures 1 <= figs[k].page <= |pages|
        ensures 1 <= figs[k].index <= |pages[figs[k].page - 1]|
        ensures pages[figs[k].page - 1][figs[k].index - 1].Ok?
        ensures figs[k] == FigureOf(figs[k].page, figs[k].index,
                                    pages[figs[k].page - 1][figs[k].index - 1].value)
      {
        if k < |prev| {
          assert figs[k] == prev[k];
          assert init[figs[k].page - 1] == pages[figs[k].page - 1];
        } else {
          assert figs[k] == more[k - |prev|];
        }
      }
    }
  }

  /** The figures are ordered by page, and on a page by position. */
  lemma {:induction false} DocumentFiguresOrder(pages: Pages)
    requires DocumentFigures(pages).Ok?
    ensures var figs := DocumentFigures(pages).value;
      forall j, k :: 0 <= j < k < |figs| ==>
        figs[j].page < figs[k].page || (figs[j].page == figs[k].page && figs[j].index < figs[k].index)
    decreases |pages|
  {
    if |pages| > 0 {
      var n := |pages| - 1;
      var init := pages[..n];
      DocumentFiguresOrder(init);
      DocumentFiguresPlaces(init);
      PageFiguresNumbering(n, pages[n]);
      var prev := DocumentFigures(init).value;
      var more := PageFigures(n, pages[n]).value;
      var figs := DocumentFigures(pages).value;
      assert figs == prev + more;
      forall j, k | 0 <= j < k < |figs|
        ensures figs[j].page < figs[k].page || (figs[j].page == figs[k].page && figs[j].index < figs[k].index)
      {
        if k < |prev| {
          assert figs[j] == prev[j] && figs[k] == prev[k];
        } else if j < |prev| {
          assert figs[j] == prev[j] && figs[k] == more[k - |prev|];
        } else {
          assert figs[j] == more[j - |prev|] && figs[k] == more[k - |prev|];
        }
      }
    }
  }

  /** `extract_pdf_images`: the pages in order, on each page the images in order, numbering
      them; the first failure abandons the list. */
  method ExtractPdfImages(doc: Result<Pages>) returns (r: Result<seq<Figure>>)
    ensures r == Extracted(doc)
  {
    if doc.Err? {
      return Err(ExtractFailure + doc.error);
    }
    var pages := doc.value;
    var figures: seq<Figure> := [];
    for p := 0 to |pages|
      invariant DocumentFigures(pages[..p]) == Ok(figures)
    {
      var images := pages[p];
      ghost var before := figures;
      for i := 0 to |images|
        invariant PageFigures(p, images[..i]).Ok?
        invariant figures == before + PageFigures(p, images[..i]).value
      {
        assert images[..i + 1][..i] == images[..i];
        match images[i]
        case Err(e) =>
          PageErrorSticks(p, images, i + 1, e);
          assert pages[..p + 1][..p] == pages[..p];
          assert pages[..p + 1][p] == images;
          DocumentErrorSticks(pages, p + 1, e);
          return Err(ExtractFailure + e);
        case Ok(info) =>
          figures := figures + [FigureOf(p + 1, i + 1, info)];
      }
      assert images[..|images|] == images;
      assert pages[..p + 1][..p] == pages[..p];
      assert pages[..p + 1][p] == images;
    }
    assert pages[..|pages|] == pages;
    r := Ok(figures);
  }

  // ------------------------------------------------------------------------------------------
  // scan_repo_images

  /** One directory of the walk: its path relative to the repository root ("" for the root
      itself) and the names of the files directly in it. */
  datatype WalkEntry = WalkEntry(dir: string, files: seq<string>)

  /** `os.path.relpath(os.path.join(root, f), repo_path)` */
  function RelPath(dir: string, f: string): (r: string)
    ensures EndsWith(r, f)
  {
    if dir == "" then f else dir + "/" + f
  }

  /** The position of the last '.' in `s`. */
  function LastDot(s: string): (r: Option<nat>)
    ensures r.Some? ==> r.value < |s| && s[r.value] == '.'
    ensures r.Some? ==> forall j :: r.value < j < |s| ==> s[j] != '.'
    ensures r.None? ==> forall j :: 0 <= j < |s| ==> s[j] != '.'
    decreases |s|
  {
    if |s| == 0 then None
    else if s[|s| - 1] == '.' then Some(|s| - 1)
    else LastDot(s[..|s| - 1])
  }

  /** `os.path.splitext(name)[1]` for a file name: from the last '.' to the end, unless every
      character before that '.' is also a '.' (a leading dot does not start an extension). */
  function Ext(name: string): (r: string)
    ensures r == "" || (r[0] == '.' && EndsWith(name, r) && '.' !in r[1..])
  {
    match LastDot(name)
    case None => ""
    case Some(d) =>
      if exists j | 0 <= j < d :: name[j] != '.' then
        var r := name[d..];
        assert forall j :: 0 <= j < |r| - 1 ==> r[1..][j] == name[d + 1 + j];
        r
      else ""
  }

  const ImageExtensions: set<string> := {".png", ".jpg", ".jpeg", ".svg"}

  lemma ExtensionsNotEmpty(e: string)
    requires e in ImageExtensions
    ensures |e| >= 4
  {
  }

  predicate IsImage(name: string) {
    Lower(Ext(name)) in ImageExtensions
  }

  /** The image files of one directory, as repository-relative paths, in listing order. */
  function ImagesIn(dir: string, files: seq<string>): seq<string> {
    FilterMap(IsImage, f => RelPath(dir, f), files)
  }

  /** The image files of the whole walk, in walk order. */
  function ImagesOf(walk: seq<WalkEntry>): seq<string> {
    Flatten(EntryImages, walk)
  }

  function EntryImages(e: WalkEntry): seq<string> {
    ImagesIn(e.dir, e.files)
  }

  lemma ImagesInMembers(dir: string, files: seq<string>, p: string)
    ensures p in ImagesIn(dir, files) <==>
      exists i :: 0 <= i < |files| && IsImage(files[i]) && p == RelPath(dir, files[i])
  {
    FilterMapMembers(IsImage, f => RelPath(dir, f), files, p);
  }

  /** A path is reported exactly when some directory of the walk holds a file with an image
      extension at that path. */
  lemma ScanMembers(walk: seq<WalkEntry>, p: string)
    ensures p in ImagesOf(walk) <==>
      exists k, i :: 0 <= k < |walk| && 0 <= i < |walk[k].files| && IsImage(walk[k].files[i])
        && p == RelPath(walk[k].dir, walk[k].files[i])
  {
    FlattenMembers(EntryImages, walk, p);
    if p in ImagesOf(walk) {
      var k :| 0 <= k < |walk| && p in EntryImages(walk[k]);
      ImagesInMembers(walk[k].dir, walk[k].files, p);
    }
    if exists k, i :: 0 <= k < |walk| && 0 <= i < |walk[k].files| && IsImage(walk[k].files[i])
        && p == RelPath(walk[k].dir, walk[k].files[i]) {
      var k, i :| 0 <= k < |walk| && 0 <= i < |walk[k].files| && IsImage(walk[k].files[i])
        && p == RelPath(walk[k].dir, walk[k].files[i]);
      ImagesInMembers(walk[k].dir, walk[k].files, p);
    }
  }

  lemma LowerSuffix(s: string, x: string)
    requires EndsWith(s, x)
    ensures EndsWith(Lower(s), Lower(x))
  {
    var d := |s| - |x|;
    assert forall i :: 0 <= i < |x| ==> Lower(s)[d..][i] == ToLower(s[d + i]) == ToLower(x[i]);
  }

  lemma EndsWithTrans(s: string, f: string, x: string)
    requires EndsWith(s, f) && EndsWith(f, x)
    ensures EndsWith(s, x)
  {
    assert s[|s| - |x|..] == f[|f| - |x|..];
  }

  /** An image file name ends, ignoring case, with its image extension. */
  lemma ImageNameEnds(f: string)
    requires IsImage(f)
    ensures EndsWith(Lower(f), Lower(Ext(f)))
  {
    var x := Ext(f);
    ExtensionsNotEmpty(Lower(x));
    assert x != "";
    LowerSuffix(f, x);
  }

  /** Every reported path ends, ignoring case, with one of the image extensions. */
  lemma ScannedAreImages(walk: seq<WalkEntry>, p: string)
    requires p in ImagesOf(walk)
    ensures exists e :: e in ImageExtensions && EndsWith(Lower(p), e)
  {
    ScanMembers(walk, p);
    var k, i :| 0 <= k < |walk| && 0 <= i < |walk[k].files| && IsImage(walk[k].files[i])
      && p == RelPath(walk[k].dir, walk[k].files[i]);
    var f := walk[k].files[i];
    ImageNameEnds(f);
    LowerSuffix(p, f);
    EndsWithTrans(Lower(p), Lower(f), Lower(Ext(f)));
  }

  /** `scan_repo_images`: for each directory of the walk, for each file in it, keep its
      relative path when its lower-cased extension is an image extension. */
  method ScanRepoImages(walk: seq<WalkEntry>) returns (images: seq<string>)
    ensures images == ImagesOf(walk)
  {
    images := [];
    for k := 0 to |walk|
      invariant images == ImagesOf(walk[..k])
    {
      var entry := walk[k];
      ghost var before := images;
      for i := 0 to |entry.files|
        invariant images == before + ImagesIn(entry.dir, entry.files[..i])
      {
        var f := entry.files[i];
        FilterMapSnoc(IsImage, f => RelPath(entry.dir, f), entry.files, i);
        if Lower(Ext(f)) in ImageExtensions {
          AppendAssoc(before, ImagesIn(entry.dir, entry.files[..i]), [RelPath(entry.dir, f)]);
          images := images + [RelPath(entry.dir, f)];
        } else {
          AppendEmpty(ImagesIn(entry.dir, entry.files[..i]));
        }
      }
      PrefixAll(entry.files);
      FlattenSnoc(EntryImages, walk, k);
    }
    PrefixAll(walk);
  }

  // ------------------------------------------------------------------------------------------
  // analyse_visual_evidence

  /** Some image path contains `word`, ignoring case. */
  predicate Mentions(images: seq<string>, word: string) {
    exists i | 0 <= i < |images| :: Contains(Lower(images[i]), word)
  }

  /** The evidence dictionary: both lists as extracted, and the four flags. */
  function Visual(figures: seq<Figure>, images: seq<string>): (r: VisualEvidence)
    ensures r.pdfFigures == figures && r.repoImages == images
    ensures r.visualFlags.pdfHasFigures <==> figures != []
    ensures r.visualFlags.repoHasImages <==> images != []
  {
    VisualEvidence(figures, images,
      VisualFlags(|figures| > 0, |images| > 0, Mentions(images, "uml"), Mentions(images, "chart")))
  }

  /** A UML or chart image is among the repository images, so either flag implies that the
      repository has images; and no image path means no UML and no chart. */
  lemma DetectionNeedsImages(figures: seq<Figure>, images: seq<string>)
    ensures var f := Visual(figures, images).visualFlags;
      (f.umlDetected || f.chartsDetected) ==> f.repoHasImages
    ensures var f := Visual(figures, images).visualFlags;
      f.umlDetected <==> exists img :: img in images && Contains(Lower(img), "uml")
    ensures var f := Visual(figures, images).visualFlags;
      f.chartsDetected <==> exists img :: img in images && Contains(Lower(img), "chart")
  {
    var f := Visual(figures, images).visualFlags;
    if f.umlDetected || f.chartsDetected {
      assert images != [];
    }
    if exists img :: img in images && Contains(Lower(img), "uml") {
      var img :| img in images && Contains(Lower(img), "uml");
      var i :| 0 <= i < |images| && images[i] == img;
    }
    if exists img :: img in images && Contains(Lower(img), "chart") {
      var img :| img in images && Contains(Lower(img), "chart");
      var i :| 0 <= i < |images| && images[i] == img;
    }
  }

  /** `analyse_visual_evidence`: the PDF's figures first (a failure there ends the analysis),
      then the repository's images, then the flags. */
  method AnalyseVisualEvidence(doc: Result<Pages>, walk: seq<WalkEntry>) returns (r: Result<VisualEvidence>)
    ensures r.Err? <==> Extracted(doc).Err?
    ensures r.Err? ==> r.error == Extracted(doc).error
    ensures r.Ok? ==> r.value == Visual(Extracted(doc).value, ImagesOf(walk))
  {
    var figures := ExtractPdfImages(doc);
    if figures.Err? {
      return Err(figures.error);
    }
    var images := ScanRepoImages(walk);
    r := Ok(Visual(figures.value, images));
  }
}
