/**
  * The merge form (`components/MergePDF.tsx`): a list of selected PDF files, a password, an output
  * filename, a busy flag and an error line. Submitting needs at least two files; a successful
  * call saves the merged PDF under the filename with `.pdf` appended when missing and resets the
  * form, a failed one only sets the error.
  */
module MergePdf {
  import opened Optional
  import opened Browser

  const SelectAtLeastTwoMessage: string := "Please select at least 2 PDF files to merge"
  const MergeFailedMessage: string := "Failed to merge PDFs. Please try again."
  const DefaultFilename: string := "merged.pdf"

  /** `Array.from(chosen).filter((file) => file.type === 'application/pdf')`. */
  function PdfOnly(chosen: seq<File>): (r: seq<File>)
    ensures |r| <= |chosen|
    ensures forall f :: f in r <==> f in chosen && IsPdf(f)
  {
    if chosen == [] then [] else (if IsPdf(chosen[0]) then [chosen[0]] else []) + PdfOnly(chosen[1..])
  }

  /** Filtering a selection made in two parts is filtering each part, in the same order. */
  lemma {:induction false} PdfOnlyConcat(a: seq<File>, b: seq<File>)
    ensures PdfOnly(a + b) == PdfOnly(a) + PdfOnly(b)
  {
    if a != [] {
      assert (a + b)[0] == a[0];
      assert (a + b)[1..] == a[1..] + b;
      PdfOnlyConcat(a[1..], b);
    } else {
      assert a + b == b;
    }
  }

  /** A selection of PDFs only is kept whole and in order. */
  lemma {:induction false} PdfOnlyKeepsPdfs(chosen: seq<File>)
    requires forall i :: 0 <= i < |chosen| ==> IsPdf(chosen[i])
    ensures PdfOnly(chosen) == chosen
  {
    if chosen != [] {
      PdfOnlyKeepsPdfs(chosen[1..]);
    }
  }

  /** `files.filter((_, i) => i !== index)`: drops the element at `index`, keeps the rest in order,
      and keeps everything when `index` is out of range. */
  function RemoveAt<T>(s: seq<T>, index: int): (r: seq<T>)
    ensures 0 <= index < |s| ==> r == s[..index] + s[index + 1..]
    ensures !(0 <= index < |s|) ==> r == s
  {
    if s == [] then []
    else
      var tail := RemoveAt(s[1..], index - 1);
      if index == 0 then tail
      else
        assert 0 < index <= |s| - 1 ==> [s[0]] + s[1..][..index - 1] == s[..index];
        [s[0]] + tail
  }

  /** The arguments the form passes to `mergePDFs`. */
  datatype MergeRequest = MergeRequest(files: seq<File>, password: Option<string>, filename: string)

  class MergePdfForm {
    var files: seq<File>
    var password: string
    var filename: string
    var loading: bool
    var error: string
    /** The request awaiting its outcome, with the values the handler captured when it started. */
    var inFlight: Option<MergeRequest>

    /** The busy flag is set exactly while a request is in flight. */
    ghost predicate Valid()
      reads this
    {
      loading <==> inFlight.Some?
    }

    /** `disabled={loading || files.length < 2}` on the merge button, negated. */
    predicate SubmitEnabled()
      reads this
    {
      !loading && |files| >= 2
    }

    constructor ()
      ensures Valid()
      ensures files == [] && password == "" && filename == DefaultFilename && !loading && error == ""
    {
      files, password, filename := [], "", DefaultFilename;
      loading, error, inFlight := false, "", None;
    }

    /** `handleFileChange`: appends the PDFs among the chosen files to the selection and clears
        the error; `chosen` is `None` when the input reports no file list. */
    method SelectFiles(chosen: Option<seq<File>>)
      modifies this
      ensures chosen.Some? ==> files == old(files) + PdfOnly(chosen.value) && error == ""
      ensures chosen.None? ==> files == old(files) && error == old(error)
      ensures password == old(password) && filename == old(filename)
      ensures loading == old(loading) && inFlight == old(inFlight)
    {
      if chosen.Some? {
        files := files + PdfOnly(chosen.value);
        error := "";
      }
    }

    /** `removeFile(index)`. */
    method RemoveFile(index: int)
      modifies this
      ensures 0 <= index < |old(files)| ==> files == old(files)[..index] + old(files)[index + 1..]
      ensures !(0 <= index < |old(files)|) ==> files == old(files)
      ensures password == old(password) && filename == old(filename) && error == old(error)
      ensures loading == old(loading) && inFlight == old(inFlight)
    {
      files := RemoveAt(files, index);
    }

    method SetPassword(value: string)
      modifies this
      ensures password == value
      ensures files == old(files) && filename == old(filename) && error == old(error)
      ensures loading == old(loading) && inFlight == old(inFlight)
    {
      password := value;
    }

    method SetFilename(value: string)
      modifies this
      ensures filename == value
      ensures files == old(files) && password == old(password) && error == old(error)
      ensures loading == old(loading) && inFlight == old(inFlight)
    {
      filename := value;
    }

    /** The synchronous part of `handleMerge`, up to the awaited call: with fewer than two files
        it sets the error and makes no call; otherwise it sets the busy flag, clears the error and
        returns the call it makes. The button is disabled while loading, so a click never reaches
        the handler then. */
    method Submit() returns (request: Option<MergeRequest>)
      requires Valid() && !loading
      modifies this
      ensures Valid()
      ensures files == old(files) && password == old(password) && filename == old(filename)
      ensures old(SubmitEnabled()) <==> request.Some?
      ensures |files| < 2 ==> request.None? && error == SelectAtLeastTwoMessage && !loading
      ensures |files| >= 2 ==> request == Some(MergeRequest(files, OrUndefined(password), filename))
      ensures |files| >= 2 ==> loading && error == "" && inFlight == request
    {
      if |files| < 2 {
        error := SelectAtLeastTwoMessage;
        request := None;
        return;
      }
      loading := true;
      error := "";
      request := Some(MergeRequest(files, OrUndefined(password), filename));
      inFlight := request;
    }

    /** The rest of `handleMerge`, once the call settles. A resolved call saves the blob under the
        filename captured at submission, with `.pdf` appended when missing, and resets files,
        password and filename; a rejected call sets the failure message and leaves the inputs
        as they are. The busy flag is cleared on both paths. */
    method Complete(outcome: Outcome<Blob>) returns (download: Option<Download>)
      requires Valid() && loading
      modifies this
      ensures Valid() && !loading
      ensures outcome.Resolved? ==>
        download == Some(Download(WithExtension(old(inFlight).value.filename, ".pdf"), outcome.value)) &&
        files == [] && password == "" && filename == DefaultFilename && error == old(error)
      ensures outcome.Rejected? ==>
        download.None? && error == MergeFailedMessage &&
        files == old(files) && password == old(password) && filename == old(filename)
    {
      var captured := inFlight.value;
      match outcome {
        case Resolved(blob) =>
          download := Some(Download(WithExtension(captured.filename, ".pdf"), blob));
          files, password, filename := [], "", DefaultFilename;
        case Rejected =>
          download := None;
          error := MergeFailedMessage;
      }
      loading := false;
      inFlight := None;
    }
  }

  /** A merge from selection to download: two PDFs, empty password, default filename. The call is
      the one `src/tests/unit/MergePDF.test.tsx:99-103` expects, and the save uses `merged.pdf`. */
  method MergeTwoFiles(a: File, b: File, merged: Blob)
    requires IsPdf(a) && IsPdf(b)
  {
    var form := new MergePdfForm();
    form.SelectFiles(Some([a, b]));
    assert PdfOnly([a, b]) == [a, b] by { PdfOnlyKeepsPdfs([a, b]); }
    assert form.files == [a, b];
    var request := form.Submit();
    assert request == Some(MergeRequest([a, b], None, "merged.pdf"));
    var download := form.Complete(Resolved(merged));
    assert download == Some(Download("merged.pdf", merged)) by {
      assert EndsWith("merged.pdf", ".pdf");
    }
    assert form.files == [] && !form.loading;
  }
}
