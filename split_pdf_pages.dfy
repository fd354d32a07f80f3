/**
  * The split-into-pages form (`components/SplitPDFPages.tsx`): one selected file, a password, an
  * archive filename, a busy flag, an error line and the list of produced files. It reports
  * through toasts as well as the error line. A call resolves either with an archive blob, which
  * is saved under a `.zip` name, or with a manifest, whose file list is shown.
  */
module SplitPdfPages {
  import opened Optional
  import opened Browser
  import opened JsNumber

  const SelectFileMessage: string := "Please select a PDF file"
  const SplitFailedMessage: string := "Failed to split PDF. Please try again."
  const ArchiveSavedMessage: string := "PDF split pages downloaded"
  const SuccessPrefix: string := "PDF split into "
  const DefaultFilename: string := "split_pages.zip"

  /** The `success.splitPages` message with its `{{count}}` filled in. */
  function SplitSuccessMessage(count: nat): (m: string)
    ensures |m| == |SuccessPrefix| + |NatToDecimal(count)| + |" pages successfully!"|
    ensures m[..|SuccessPrefix|] == SuccessPrefix && EndsWith(m, " pages successfully!")
    ensures m[|SuccessPrefix|..|m| - |" pages successfully!"|] == NatToDecimal(count)
  {
    SuccessPrefix + NatToDecimal(count) + " pages successfully!"
  }

  /** The count a reader takes from the success message is the count it was made with. */
  lemma SplitSuccessMessageCount(count: nat)
    ensures ParseInt(SplitSuccessMessage(count)[|SuccessPrefix|..]) == Int(count)
  {
    var digitsAndRest := NatToDecimal(count) + " pages successfully!";
    assert SplitSuccessMessage(count) == SuccessPrefix + digitsAndRest;
    assert SplitSuccessMessage(count)[|SuccessPrefix|..] == digitsAndRest;
    ParseIntOfDecimal(count, " pages successfully!");
  }

  /** The message for the three pages of the form's tests. */
  lemma SplitSuccessMessageThree()
    ensures SplitSuccessMessage(3) == "PDF split into 3 pages successfully!"
  {
    assert NatToDecimal(3) == "3";
    assert SplitSuccessMessage(3) == SuccessPrefix + "3" + " pages successfully!";
  }

  /** `filename && filename.endsWith('.zip') ? filename : `${filename}.zip``. */
  function ArchiveName(filename: string): (r: string)
    ensures EndsWith(r, ".zip")
    ensures r == WithExtension(filename, ".zip")
    ensures filename == "" ==> r == ".zip"
  {
    if filename != "" && EndsWith(filename, ".zip") then filename else filename + ".zip"
  }

  /** What `splitPDFPages` resolves with: an archive blob, or a manifest of the produced files. */
  datatype PagesResponse = ArchiveBlob(blob: Blob) | Manifest(message: string, files: seq<string>)

  /** The arguments the form passes to `splitPDFPages`: the password goes as typed, even empty. */
  datatype PagesRequest = PagesRequest(file: File, password: string, filename: string)

  class SplitPdfPagesForm {
    var file: Option<File>
    var password: string
    var loading: bool
    var error: string
    var result: Option<seq<string>>
    var filename: string
    /** The toasts the form has shown, oldest first. */
    ghost var toasts: seq<Toast>
    /** The request awaiting its outcome, with the values the handler captured when it started. */
    var inFlight: Option<PagesRequest>

    /** The busy flag is set exactly while a request is in flight. */
    ghost predicate Valid()
      reads this
    {
      loading <==> inFlight.Some?
    }

    /** `disabled={loading || !file}` on the split button, negated. */
    predicate SubmitEnabled()
      reads this
    {
      !loading && file.Some?
    }

    constructor ()
      ensures Valid()
      ensures file.None? && password == "" && !loading && error == "" && result.None?
      ensures filename == DefaultFilename && toasts == []
    {
      file, password, loading, error, result := None, "", false, "", None;
      filename, toasts, inFlight := DefaultFilename, [], None;
    }

    /** `handleFileChange`: only the first chosen file counts; a PDF replaces the selection and
        clears the error and the result, anything else sets the error and keeps both; an empty or
        missing file list changes nothing. */
    method SelectFile(chosen: Option<seq<File>>)
      modifies this
      ensures chosen.Some? && chosen.value != [] && IsPdf(chosen.value[0]) ==>
        file == Some(chosen.value[0]) && error == "" && result.None?
      ensures chosen.Some? && chosen.value != [] && !IsPdf(chosen.value[0]) ==>
        file == old(file) && error == SelectFileMessage && result == old(result)
      ensures chosen.None? || chosen.value == [] ==>
        file == old(file) && error == old(error) && result == old(result)
      ensures password == old(password) && filename == old(filename) && toasts == old(toasts)
      ensures loading == old(loading) && inFlight == old(inFlight)
    {
      if chosen.Some? && chosen.value != [] {
        var selected := chosen.value[0];
        if IsPdf(selected) {
          file := Some(selected);
          error := "";
          result := None;
        } else {
          error := SelectFileMessage;
        }
      }
    }

    /** `removeFile`: clears both the selection and the shown result. */
    method RemoveFile()
      modifies this
      ensures file.None? && result.None?
      ensures password == old(password) && filename == old(filename) && error == old(error)
      ensures toasts == old(toasts) && loading == old(loading) && inFlight == old(inFlight)
    {
      file := None;
      result := None;
    }

    method SetPassword(value: string)
      modifies this
      ensures password == value
      ensures file == old(file) && filename == old(filename) && error == old(error) && result == old(result)
      ensures toasts == old(toasts) && loading == old(loading) && inFlight == old(inFlight)
    {
      password := value;
    }

    method SetFilename(value: string)
      modifies this
      ensures filename == value
      ensures file == old(file) && password == old(password) && error == old(error) && result == old(result)
      ensures toasts == old(toasts) && loading == old(loading) && inFlight == old(inFlight)
    {
      filename := value;
    }

    /** The synchronous part of `handleSplit`, up to the awaited call: with no file it sets the
        error, shows it as one error toast and makes no call; otherwise it sets the busy flag,
        clears the error and returns the call it makes, with the raw password. The button is
        disabled while loading, so a click never reaches the handler then. */
    method Submit() returns (request: Option<PagesRequest>)
      requires Valid() && !loading
      modifies this
      ensures Valid()
      ensures file == old(file) && password == old(password) && filename == old(filename) && result == old(result)
      ensures old(SubmitEnabled()) <==> request.Some?
      ensures file.None? ==>
        request.None? && !loading && error == SelectFileMessage &&
        toasts == old(toasts) + [Toast(ErrorToast, SelectFileMessage)]
      ensures file.Some? ==>
        request == Some(PagesRequest(file.value, password, filename)) &&
        loading && error == "" && inFlight == request && toasts == old(toasts)
    {
      if file.None? {
        error := SelectFileMessage;
        toasts := toasts + [Toast(ErrorToast, SelectFileMessage)];
        request := None;
        return;
      }
      loading := true;
      error := "";
      request := Some(PagesRequest(file.value, password, filename));
      inFlight := request;
    }

    /** The rest of `handleSplit`, once the call settles. An archive blob is saved under the
        filename captured at submission with `.zip` appended when missing, and the result is
        cleared; a manifest becomes the result, and its file count goes into the success toast; a
        rejected call sets the failure message and shows it as an error toast. The selection is
        never reset, and the busy flag is cleared on every path. */
    method Complete(outcome: Outcome<PagesResponse>) returns (download: Option<Download>)
      requires Valid() && loading
      modifies this
      ensures Valid() && !loading
      ensures file == old(file) && password == old(password) && filename == old(filename)
      ensures outcome.Resolved? && outcome.value.ArchiveBlob? ==>
        download == Some(Download(ArchiveName(old(inFlight).value.filename), outcome.value.blob)) &&
        result.None? && error == old(error) && toasts == old(toasts) + [Toast(SuccessToast, ArchiveSavedMessage)]
      ensures outcome.Resolved? && outcome.value.Manifest? ==>
        download.None? && result == Some(outcome.value.files) && error == old(error) &&
        toasts == old(toasts) + [Toast(SuccessToast, SplitSuccessMessage(|outcome.value.files|))]
      ensures outcome.Rejected? ==>
        download.None? && result == old(result) && error == SplitFailedMessage &&
        toasts == old(toasts) + [Toast(ErrorToast, SplitFailedMessage)]
    {
      var captured := inFlight.value;
      match outcome {
        case Resolved(ArchiveBlob(blob)) =>
          download := Some(Download(ArchiveName(captured.filename), blob));
          toasts := toasts + [Toast(SuccessToast, ArchiveSavedMessage)];
          result := None;
        case Resolved(Manifest(_, files)) =>
          download := None;
          result := Some(files);
          toasts := toasts + [Toast(SuccessToast, SplitSuccessMessage(|files|))];
        case Rejected =>
          download := None;
          error := SplitFailedMessage;
          toasts := toasts + [Toast(ErrorToast, SplitFailedMessage)];
      }
      loading := false;
      inFlight := None;
    }
  }

  /** The form's tests as a client: the call gets an empty password, and a manifest of three
      files is shown whole with a toast that counts three pages. */
  method SplitIntoThreePages(pdf: File)
    requires IsPdf(pdf)
  {
    var form := new SplitPdfPagesForm();
    form.SelectFile(Some([pdf]));
    var request := form.Submit();
    assert request == Some(PagesRequest(pdf, "", "split_pages.zip"));
    var produced := ["page_1.pdf", "page_2.pdf", "page_3.pdf"];
    var download := form.Complete(Resolved(Manifest("PDF split successfully", produced)));
    assert download.None? && form.result == Some(produced);
    assert form.toasts[|form.toasts| - 1] == Toast(SuccessToast, SplitSuccessMessage(3));
  }
}
