/**
  * The split-by-range form (`components/SplitPDFRange.tsx`): one selected file, the text of the
  * start and end page inputs, a password, an output filename, a busy flag and an error line.
  * Submitting runs a fixed chain of checks on the page inputs, read with `parseInt`; the first
  * failing check sets the error and no call is made.
  */
module SplitPdfRange {
  import opened Optional
  import opened Browser
  import opened JsNumber

  const InvalidFileMessage: string := "Please select a valid PDF file"
  const SelectFileMessage: string := "Please select a PDF file"
  const ValidPagesMessage: string := "Please enter valid page numbers"
  const StartAtLeastOneMessage: string := "Start page must be at least 1"
  const EndNotBeforeStartMessage: string := "End page must be greater than or equal to start page"
  const SplitFailedMessage: string := "Failed to split PDF. Please check your page range and try again."
  const DefaultFilename: string := "split.pdf"

  /** What the checks of `handleSplit` decide: the message of the first failing check, or the
      two page numbers to send. */
  datatype RangeCheck = Refused(message: string) | Accepted(start: int, end: int)

  /** The checks of `handleSplit`, in their order: a file is selected; both inputs parse to truthy
      numbers (not NaN, not zero); the start is at least 1; the end is not before the start. */
  function CheckRange(hasFile: bool, startPage: string, endPage: string): (c: RangeCheck)
    ensures !hasFile ==> c == Refused(SelectFileMessage)
    ensures c.Accepted? ==> 1 <= c.start <= c.end
    ensures c.Accepted? ==> ParseInt(startPage) == Int(c.start) && ParseInt(endPage) == Int(c.end)
    ensures c.Accepted? <==> hasFile && ParseInt(startPage).Int? && ParseInt(endPage).Int? &&
                             1 <= ParseInt(startPage).value <= ParseInt(endPage).value
  {
    if !hasFile then Refused(SelectFileMessage)
    else
      var start := ParseInt(startPage);
      var end := ParseInt(endPage);
      if !Truthy(start) || !Truthy(end) then Refused(ValidPagesMessage)
      else if start.value < 1 then Refused(StartAtLeastOneMessage)
      else if end.value < start.value then Refused(EndNotBeforeStartMessage)
      else Accepted(start.value, end.value)
  }

  /** Each refusal names the first check that fails, and no later one. */
  lemma CheckRangeFirstFailureWins(hasFile: bool, startPage: string, endPage: string)
    ensures CheckRange(hasFile, startPage, endPage) == Refused(ValidPagesMessage) <==>
      hasFile && (!Truthy(ParseInt(startPage)) || !Truthy(ParseInt(endPage)))
    ensures CheckRange(hasFile, startPage, endPage) == Refused(StartAtLeastOneMessage) <==>
      hasFile && Truthy(ParseInt(startPage)) && Truthy(ParseInt(endPage)) && ParseInt(startPage).value < 1
    ensures CheckRange(hasFile, startPage, endPage) == Refused(EndNotBeforeStartMessage) <==>
      hasFile && Truthy(ParseInt(startPage)) && Truthy(ParseInt(endPage)) &&
      1 <= ParseInt(startPage).value && ParseInt(endPage).value < ParseInt(startPage).value
  {
  }

  /** The inputs the form's own tests and the number inputs produce, and what the checks say of
      them: an empty or zero bound is not valid, `-1` is a number but not a page, `1.9` reads as 1. */
  lemma CheckRangeExamples()
    ensures CheckRange(true, "", "5") == Refused(ValidPagesMessage)
    ensures CheckRange(true, "0", "5") == Refused(ValidPagesMessage)
    ensures CheckRange(true, "1", "abc") == Refused(ValidPagesMessage)
    ensures CheckRange(true, "-1", "5") == Refused(StartAtLeastOneMessage)
    ensures CheckRange(true, "5", "3") == Refused(EndNotBeforeStartMessage)
    ensures CheckRange(true, "1", "3") == Accepted(1, 3)
    ensures CheckRange(true, "1.9", "2") == Accepted(1, 2)
  {
    ParseIntToString(5);
    ParseIntToString(-1);
    ParseIntToString(1);
    ParseIntToString(3);
    ParseIntToString(2);
    ParseIntToString(0);
    assert ParseInt("1.9") == Int(1) by { ParseIntOfDecimal(1, ".9"); }
  }

  /** The arguments the form passes to `splitPDFRange`. */
  datatype RangeRequest = RangeRequest(file: File, start: int, end: int, password: Option<string>, filename: string)

  class SplitPdfRangeForm {
    var file: Option<File>
    var startPage: string
    var endPage: string
    var password: string
    var filename: string
    var loading: bool
    var error: string
    /** The request awaiting its outcome, with the values the handler captured when it started. */
    var inFlight: Option<RangeRequest>

    /** The busy flag is set exactly while a request is in flight. */
    ghost predicate Valid()
      reads this
    {
      loading <==> inFlight.Some?
    }

    /** `disabled={loading || !file || !startPage || !endPage}` on the split button, negated. */
    predicate SubmitEnabled()
      reads this
      ensures SubmitEnabled() ==> !loading && file.Some?
      ensures !loading && !SubmitEnabled() ==> CheckRange(file.Some?, startPage, endPage).Refused?
    {
      !loading && file.Some? && startPage != "" && endPage != ""
    }

    constructor ()
      ensures Valid()
      ensures file.None? && startPage == "" && endPage == "" && password == ""
      ensures filename == DefaultFilename && !loading && error == ""
    {
      file, startPage, endPage, password, filename := None, "", "", "", DefaultFilename;
      loading, error, inFlight := false, "", None;
    }

    /** `handleFileChange`: only the first chosen file counts; a PDF replaces the selection and
        clears the error, anything else sets the error and keeps the selection; an empty or
        missing file list changes nothing. */
    method SelectFile(chosen: Option<seq<File>>)
      modifies this
      ensures chosen.Some? && chosen.value != [] && IsPdf(chosen.value[0]) ==>
        file == Some(chosen.value[0]) && error == ""
      ensures chosen.Some? && chosen.value != [] && !IsPdf(chosen.value[0]) ==>
        file == old(file) && error == InvalidFileMessage
      ensures chosen.None? || chosen.value == [] ==> file == old(file) && error == old(error)
      ensures startPage == old(startPage) && endPage == old(endPage)
      ensures password == old(password) && filename == old(filename)
      ensures loading == old(loading) && inFlight == old(inFlight)
    {
      if chosen.Some? && chosen.value != [] {
        var selected := chosen.value[0];
        if IsPdf(selected) {
          file := Some(selected);
          error := "";
        } else {
          error := InvalidFileMessage;
        }
      }
    }

    /** `removeFile`. */
    method RemoveFile()
      modifies this
      ensures file.None?
      ensures startPage == old(startPage) && endPage == old(endPage)
      ensures password == old(password) && filename == old(filename) && error == old(error)
      ensures loading == old(loading) && inFlight == old(inFlight)
    {
      file := None;
    }

    /** The `onChange` of the start page input. */
    method SetStartPage(value: string)
      modifies this
      ensures startPage == value
      ensures file == old(file) && endPage == old(endPage)
      ensures password == old(password) && filename == old(filename) && error == old(error)
      ensures loading == old(loading) && inFlight == old(inFlight)
    {
      startPage := value;
    }

    /** The `onChange` of the end page input. */
    method SetEndPage(value: string)
      modifies this
      ensures endPage == value
      ensures file == old(file) && startPage == old(startPage)
      ensures password == old(password) && filename == old(filename) && error == old(error)
      ensures loading == old(loading) && inFlight == old(inFlight)
    {
      endPage := value;
    }

    method SetPassword(value: string)
      modifies this
      ensures password == value
      ensures file == old(file) && startPage == old(startPage) && endPage == old(endPage)
      ensures filename == old(filename) && error == old(error)
      ensures loading == old(loading) && inFlight == old(inFlight)
    {
      password := value;
    }

    method SetFilename(value: string)
      modifies this
      ensures filename == value
      ensures file == old(file) && startPage == old(startPage) && endPage == old(endPage)
      ensures password == old(password) && error == old(error)
      ensures loading == old(loading) && inFlight == old(inFlight)
    {
      filename := value;
    }

    /** The synchronous part of `handleSplit`, up to the awaited call: a refused check sets its
        message and makes no call; otherwise the busy flag is set, the error cleared and the call
        made with the parsed bounds, the password or undefined, and the filename. The button is
        disabled while loading, so a click never reaches the handler then. */
    method Submit() returns (request: Option<RangeRequest>)
      requires Valid() && !loading
      modifies this
      ensures Valid()
      ensures file == old(file) && startPage == old(startPage) && endPage == old(endPage)
      ensures password == old(password) && filename == old(filename)
      ensures request.Some? ==> old(SubmitEnabled())
      ensures CheckRange(file.Some?, startPage, endPage).Refused? ==>
        request.None? && !loading && error == CheckRange(file.Some?, startPage, endPage).message
      ensures CheckRange(file.Some?, startPage, endPage).Accepted? ==>
        var c := CheckRange(file.Some?, startPage, endPage);
        request == Some(RangeRequest(file.value, c.start, c.end, OrUndefined(password), filename)) &&
        loading && error == "" && inFlight == request
    {
      var check := CheckRange(file.Some?, startPage, endPage);
      if check.Refused? {
        error := check.message;
        request := None;
        return;
      }
      loading := true;
      error := "";
      request := Some(RangeRequest(file.value, check.start, check.end, OrUndefined(password), filename));
      inFlight := request;
    }

    /** The rest of `handleSplit`, once the call settles. A resolved call saves the blob under the
        filename captured at submission, with `.pdf` appended when missing, and resets the file,
        both bounds, the password and the filename; a rejected call sets the failure message and
        leaves the inputs as they are. The busy flag is cleared on both paths. */
    method Complete(outcome: Outcome<Blob>) returns (download: Option<Download>)
      requires Valid() && loading
      modifies this
      ensures Valid() && !loading
      ensures outcome.Resolved? ==>
        download == Some(Download(WithExtension(old(inFlight).value.filename, ".pdf"), outcome.value)) &&
        file.None? && startPage == "" && endPage == "" && password == "" && filename == DefaultFilename &&
        error == old(error)
      ensures outcome.Rejected? ==>
        download.None? && error == SplitFailedMessage &&
        file == old(file) && startPage == old(startPage) && endPage == old(endPage) &&
        password == old(password) && filename == old(filename)
    {
      var captured := inFlight.value;
      match outcome {
        case Resolved(blob) =>
          download := Some(Download(WithExtension(captured.filename, ".pdf"), blob));
          file, startPage, endPage, password, filename := None, "", "", "", DefaultFilename;
        case Rejected =>
          download := None;
          error := SplitFailedMessage;
      }
      loading := false;
      inFlight := None;
    }
  }

  /** The form's tests as a client: `-1` to `5` is refused without a call, `1` to `3` with the
      defaults calls `splitPDFRange(file, 1, 3, undefined, 'split.pdf')`. */
  method SplitFirstThreePages(pdf: File, blob: Blob)
    requires IsPdf(pdf)
  {
    var form := new SplitPdfRangeForm();
    form.SelectFile(Some([pdf]));
    form.SetStartPage("-1");
    form.SetEndPage("5");
    CheckRangeExamples();
    assert form.file.Some? && form.startPage == "-1" && form.endPage == "5";
    var refused := form.Submit();
    assert refused.None? && form.error == StartAtLeastOneMessage;
    form.SetStartPage("1");
    form.SetEndPage("3");
    assert CheckRange(form.file.Some?, form.startPage, form.endPage) == Accepted(1, 3);
    var request := form.Submit();
    assert request == Some(RangeRequest(pdf, 1, 3, None, "split.pdf"));
    var download := form.Complete(Resolved(blob));
    assert download == Some(Download("split.pdf", blob)) by {
      assert EndsWith("split.pdf", ".pdf");
    }
    assert form.file.None? && form.startPage == "" && form.endPage == "";
  }
}
