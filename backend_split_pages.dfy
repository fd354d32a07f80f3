/**
  * `split_pdf_pages` (`Backend/split_pdf_pages.py`): writes every page of a PDF to a file of its
  * own, each encrypted when a password is given, and returns the output paths in page order.
  * The page list and the generated hex id are parameters; the written documents are returned
  * beside the paths instead of going to disk.
  */
module BackendSplitPages {
  import opened Optional
  import opened JsNumber
  import opened PdfOutput

  /** `filename_prefix or f"split_pages_{hex}"`. */
  function BaseName(filenamePrefix: Option<string>, hexId: string): (base: string)
    ensures filenamePrefix.Some? && filenamePrefix.value != "" ==> base == filenamePrefix.value
    ensures (filenamePrefix.None? || filenamePrefix.value == "") ==> base == "split_pages_" + hexId
  {
    if filenamePrefix.Some? && filenamePrefix.value != "" then filenamePrefix.value else "split_pages_" + hexId
  }

  /** `os.path.join("output", f"{base_name}_page_{i+1}.pdf")`, Python's `str` of an int being its
      decimal digits. */
  function PagePath(base: string, i: nat): (p: string)
    ensures base == [] || base[0] != '/' ==> p == "output/" + base + "_page_" + NatToDecimal(i + 1) + ".pdf"
    ensures base != [] && base[0] == '/' ==> p == base + "_page_" + NatToDecimal(i + 1) + ".pdf"
  {
    JoinPath(OutputDir, base + "_page_" + NatToDecimal(i + 1) + ".pdf")
  }

  /** Two pages of one call never share an output path. */
  lemma PagePathsDistinct(base: string, i: nat, j: nat)
    requires i != j
    ensures PagePath(base, i) != PagePath(base, j)
  {
    var di, dj := NatToDecimal(i + 1), NatToDecimal(j + 1);
    NatToDecimalDistinct(i + 1, j + 1);
    var ni, nj := base + "_page_" + di + ".pdf", base + "_page_" + dj + ".pdf";
    assert ni[|base| + 6..|ni| - 4] == di;
    assert nj[|base| + 6..|nj| - 4] == dj;
    JoinPathDistinct(ni, nj);
  }

  /** `split_pdf_pages(file_obj, password, filename_prefix)`, where `pages` is `reader.pages` and
      `hexId` the `uuid4().hex` used when no prefix is given: one output per page, in page order,
      each holding exactly that page. */
  method SplitPdfPages<Page>(pages: seq<Page>, password: Option<string>, filenamePrefix: Option<string>, hexId: string)
    returns (outFiles: seq<string>, written: seq<PdfDocument<Page>>)
    ensures |outFiles| == |pages| && |written| == |pages|
    ensures forall i :: 0 <= i < |pages| ==> outFiles[i] == PagePath(BaseName(filenamePrefix, hexId), i)
    ensures forall i :: 0 <= i < |pages| ==> written[i] == PdfDocument([pages[i]], Encrypts(password))
    ensures forall i, j :: 0 <= i < j < |outFiles| ==> outFiles[i] != outFiles[j]
  {
    var baseName := BaseName(filenamePrefix, hexId);
    outFiles, written := [], [];
    for i := 0 to |pages|
      invariant |outFiles| == i && |written| == i
      invariant forall k :: 0 <= k < i ==> outFiles[k] == PagePath(baseName, k)
      invariant forall k :: 0 <= k < i ==> written[k] == PdfDocument([pages[k]], Encrypts(password))
    {
      var writer := PdfDocument([pages[i]], Encrypts(password));
      var outputPath := JoinPath(OutputDir, baseName + "_page_" + NatToDecimal(i + 1) + ".pdf");
      written := written + [writer];
      outFiles := outFiles + [outputPath];
    }
    forall i, j | 0 <= i < j < |outFiles|
      ensures outFiles[i] != outFiles[j]
    {
      PagePathsDistinct(baseName, i, j);
    }
  }
}
