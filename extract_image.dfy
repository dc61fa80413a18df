/** `arxiv_sanity_bot/arxiv/extract_image.py`: choosing between the first
    bitmap image and the first vector graph of a paper, finding the first
    page whose image can be saved, and naming the output file.

    The PDF reader, the graph extractor and the image files themselves are
    outside the model: a page is described by what listing and saving its
    images gave, and the two extractors are oracles from the PDF path to
    their `(file, page)` results. */
module ExtractImage {
  import opened Wrappers

  /** Python truthiness of `str | None`: `None` and `""` are false. */
  predicate Truthy(s: Option<string>) {
    s.Some? && s.value != ""
  }

  /** `a or b`. */
  function Or(a: Option<string>, b: Option<string>): (r: Option<string>)
    ensures Truthy(a) ==> r == a
    ensures !Truthy(a) ==> r == b
  {
    if Truthy(a) then a else b
  }

  /** `select_first_image`: the one on the earlier page, the image on a
      tie; when a page number is missing, `image_file or graph_file`. */
  function SelectFirstImage(graphFile: Option<string>, graphPage: Option<int>,
                            imageFile: Option<string>, imagePage: Option<int>): (r: Option<string>)
    ensures r == imageFile || r == graphFile
    ensures imagePage.Some? && graphPage.Some? ==>
              (imagePage.value <= graphPage.value ==> r == imageFile) &&
              (imagePage.value > graphPage.value ==> r == graphFile)
  {
    if imagePage.Some? && graphPage.Some? then
      if imagePage.value <= graphPage.value then imageFile else graphFile
    else Or(imageFile, graphFile)
  }

  /** `select_graph`. */
  function SelectGraph(graphFile: Option<string>, graphPage: Option<int>,
                       imageFile: Option<string>, imagePage: Option<int>): (r: Option<string>)
    ensures r == graphFile
  {
    graphFile
  }

  /** `select_image`. */
  function SelectImage(graphFile: Option<string>, graphPage: Option<int>,
                       imageFile: Option<string>, imagePage: Option<int>): (r: Option<string>)
    ensures r == imageFile
  {
    imageFile
  }

  /** `no_image_or_graph`. */
  function NoImageOrGraph(graphFile: Option<string>, graphPage: Option<int>,
                          imageFile: Option<string>, imagePage: Option<int>): (r: Option<string>)
    ensures r.None?
  {
    None
  }

  /** `_select_image_or_graph`: which of the four helpers applies depends
      only on which files are present. */
  function SelectImageOrGraph(graphFile: Option<string>, graphPage: Option<int>,
                              imageFile: Option<string>, imagePage: Option<int>): (r: Option<string>)
    ensures r.None? || r == imageFile || r == graphFile
    ensures r.None? <==> imageFile.None? && graphFile.None?
  {
    if imageFile.Some? && graphFile.Some? then SelectFirstImage(graphFile, graphPage, imageFile, imagePage)
    else if imageFile.None? && graphFile.Some? then SelectGraph(graphFile, graphPage, imageFile, imagePage)
    else if imageFile.Some? && graphFile.None? then SelectImage(graphFile, graphPage, imageFile, imagePage)
    else NoImageOrGraph(graphFile, graphPage, imageFile, imagePage)
  }

  /** With both files and both pages known, the earlier page wins and a
      shared page goes to the image. */
  lemma EarlierPageWins(graphFile: string, graphPage: int, imageFile: string, imagePage: int)
    requires graphFile != imageFile
    ensures var r := SelectImageOrGraph(Some(graphFile), Some(graphPage), Some(imageFile), Some(imagePage));
            (r == Some(imageFile) <==> imagePage <= graphPage)
            && (r == Some(graphFile) <==> imagePage > graphPage)
  {
  }

  /** A lone file is chosen whatever the page numbers say. */
  lemma LoneFileChosen(file: string, page1: Option<int>, page2: Option<int>)
    ensures SelectImageOrGraph(Some(file), page1, None, page2) == Some(file)
    ensures SelectImageOrGraph(None, page1, Some(file), page2) == Some(file)
  {
  }

  /** Both files, a page number missing: the image unless its name is
      empty. */
  lemma MissingPageFallsBack(graphFile: string, graphPage: Option<int>, imageFile: string, imagePage: Option<int>)
    requires graphPage.None? || imagePage.None?
    ensures SelectImageOrGraph(Some(graphFile), graphPage, Some(imageFile), imagePage)
            == (if imageFile != "" then Some(imageFile) else Some(graphFile))
  {
  }

  lemma SelectionExamples()
    ensures SelectImageOrGraph(Some("graph"), Some(1), Some("image"), Some(1)) == Some("image")
    ensures SelectImageOrGraph(Some("graph"), Some(1), Some("image"), Some(2)) == Some("graph")
    ensures SelectImageOrGraph(Some("graph"), Some(1), None, None) == Some("graph")
    ensures SelectImageOrGraph(None, None, Some("image"), Some(1)) == Some("image")
    ensures SelectImageOrGraph(None, None, None, None) == None
  {
  }

  /** One PDF page as `_search_first_image_in_pages` sees it: listing its
      images raised, or listed `count` images of which `_save_first_image`
      saved the file `saved` (`None` when none was big enough or had
      content). */
  datatype PageImages = ListingRaises | Listed(count: nat, saved: Option<string>)

  /** A page where the search stops. */
  predicate Found(p: PageImages) {
    p.Listed? && p.count > 0 && p.saved.Some?
  }

  /** `_search_first_image_in_pages`: the file of the first page where an
      image was saved, and the index of the last page visited, which is
      `-1` only for a document without pages. */
  method SearchFirstImageInPages(pages: seq<PageImages>) returns (filename: Option<string>, pageNumber: int)
    ensures pages == [] ==> filename.None? && pageNumber == -1
    ensures pages != [] ==> 0 <= pageNumber < |pages|
    ensures filename.Some? ==> Found(pages[pageNumber]) && filename == pages[pageNumber].saved
    ensures filename.Some? ==> forall k :: 0 <= k < pageNumber ==> !Found(pages[k])
    ensures filename.None? ==> forall k :: 0 <= k < |pages| ==> !Found(pages[k])
    ensures filename.None? && pages != [] ==> pageNumber == |pages| - 1
  {
    filename := None;
    pageNumber := -1;
    var i := 0;
    while i < |pages|
      invariant 0 <= i <= |pages|
      invariant pageNumber == i - 1
      invariant filename.None?
      invariant forall k :: 0 <= k < i ==> !Found(pages[k])
    {
      pageNumber := i;
      var page := pages[i];
      if page.ListingRaises? {
        i := i + 1;
        continue;
      }
      if page.count > 0 {
        filename := page.saved;
        if filename.Some? {
          return;
        }
      }
      i := i + 1;
    }
  }

  const OutputSuffix := "_image1.jpg"

  /** `extract_first_image`: without a PDF (given or downloaded) there is
      nothing; otherwise the selection decides whether the JPEG copy
      `<arxiv_id>_image1.jpg` is produced. */
  function ExtractFirstImage(arxivId: string, pdfPath: Option<string>, download: Option<string>,
                             extractImage: string -> (Option<string>, int),
                             extractGraph: string -> (Option<string>, Option<int>)): (r: Option<string>)
    ensures r.Some? ==> r.value == arxivId + OutputSuffix
    ensures var pdf := if pdfPath.None? then download else pdfPath;
            r.Some? <==> pdf.Some? && ((extractImage(pdf.value).0).Some? || (extractGraph(pdf.value).0).Some?)
  {
    var pdf := if pdfPath.None? then download else pdfPath;
    if pdf.None? then None
    else
      var image := extractImage(pdf.value);
      var graph := extractGraph(pdf.value);
      var filename := SelectImageOrGraph(graph.0, graph.1, image.0, Some(image.1));
      if filename.Some? then Some(arxivId + OutputSuffix) else None
  }
}
