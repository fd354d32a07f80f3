/**
  * `split_pdf_range` (`Backend/split_pdf_range.py`): copies the pages of a 1-based inclusive
  * range, clamped to the document, into one new PDF, encrypted when a password is given, and
  * returns the path it was written to. Reading the upload and writing the file are left to the
  * caller; the page list and the generated hex id are parameters.
  */
module BackendSplitRange {
  import opened Optional
  import opened PdfOutput

  function Max(a: int, b: int): int { if a < b then b else a }
  function Min(a: int, b: int): int { if a < b then a else b }

  /** `split_pdf_range(file_obj, start_page, end_page, password)`, where `pages` is
      `reader.pages` and `hexId` is the `uuid4().hex` of the output name. */
  method SplitPdfRange<Page>(pages: seq<Page>, startPage: int, endPage: int, password: Option<string>, hexId: string)
    returns (outPath: string, written: PdfDocument<Page>)
    ensures |written.pages| == Max(0, Min(endPage, |pages|) - Max(1, startPage) + 1)
    ensures forall k :: 0 <= k < |written.pages| ==> written.pages[k] == pages[Max(1, startPage) - 1 + k]
    ensures 1 <= startPage <= endPage <= |pages| ==> written.pages == pages[startPage - 1..endPage]
    ensures endPage < startPage || endPage < 1 || |pages| < startPage ==> written.pages == []
    ensures written.encrypted <==> Encrypts(password)
    ensures outPath == JoinPath(OutputDir, "split_range_" + hexId + ".pdf")
  {
    var totalPages := |pages|;
    var start := Max(1, startPage);
    var end := Min(endPage, totalPages);
    var added: seq<Page> := [];
    var i := start - 1;
    while i < end
      invariant start - 1 <= i && (i == start - 1 || i <= end)
      invariant |added| == i - (start - 1)
      invariant forall k :: 0 <= k < |added| ==> added[k] == pages[start - 1 + k]
    {
      added := added + [pages[i]];
      i := i + 1;
    }
    assert |added| == Max(0, end - start + 1);
    if 1 <= startPage <= endPage <= totalPages {
      assert start == startPage && end == endPage;
      assert added == pages[startPage - 1..endPage];
    }
    written := PdfDocument(added, Encrypts(password));
    outPath := JoinPath(OutputDir, "split_range_" + hexId + ".pdf");
  }
}
