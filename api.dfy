/**
  * The multipart bodies that the remote operation client (`services/api.ts`) builds before it
  * posts them: each operation appends its fields to a fresh `FormData` one by one, in a fixed
  * order. The post itself and the service's base address are outside this model.
  */
module Api {
  import opened Optional
  import opened Browser
  import opened JsNumber

  /** The value of one multipart field: a file part or a text part. */
  datatype FormValue = FilePart(file: File) | TextPart(text: string)

  /** One `formData.append(name, value)`. */
  datatype FormField = FormField(name: string, value: FormValue)

  /** The test `if (password)` on an optional string: present and not empty. */
  predicate SendsPassword(password: Option<string>)
  {
    password.Some? && password.value != ""
  }

  /** A typed password reaches the body exactly when it is not empty, whether the form passes it
      as `password || undefined` or as typed. */
  lemma SendsTypedPassword(typed: string)
    ensures SendsPassword(OrUndefined(typed)) <==> typed != ""
    ensures SendsPassword(Some(typed)) <==> typed != ""
    ensures !SendsPassword(None)
  {
  }

  /** The body of `mergePDFs(files, password)`: one `files` part per file, in order, then the
      password when it is truthy. */
  method MergeFormData(files: seq<File>, password: Option<string>) returns (form: seq<FormField>)
    ensures |form| == |files| + (if SendsPassword(password) then 1 else 0)
    ensures forall i :: 0 <= i < |files| ==> form[i] == FormField("files", FilePart(files[i]))
    ensures SendsPassword(password) ==> form[|files|] == FormField("password", TextPart(password.value))
    ensures forall k :: 0 <= k < |form| ==> form[k].name in {"files", "password"}
  {
    form := [];
    for i := 0 to |files|
      invariant |form| == i
      invariant forall j :: 0 <= j < i ==> form[j] == FormField("files", FilePart(files[j]))
    {
      form := form + [FormField("files", FilePart(files[i]))];
    }
    if SendsPassword(password) {
      form := form + [FormField("password", TextPart(password.value))];
    }
  }

  /** The body of `splitPDFPages(file, password)`: the file, then the password when it is truthy. */
  method SplitPagesFormData(file: File, password: Option<string>) returns (form: seq<FormField>)
    ensures form == [FormField("file", FilePart(file))] +
                    (if SendsPassword(password) then [FormField("password", TextPart(password.value))] else [])
    ensures forall k :: 0 <= k < |form| ==> form[k].name in {"file", "password"}
  {
    form := [FormField("file", FilePart(file))];
    if SendsPassword(password) {
      form := form + [FormField("password", TextPart(password.value))];
    }
  }

  /** The body of `splitPDFRange(file, startPage, endPage, password)`: the file, the two page
      numbers as decimal text that parses back to the numbers sent, then the password when it is
      truthy. */
  method SplitRangeFormData(file: File, startPage: int, endPage: int, password: Option<string>)
    returns (form: seq<FormField>)
    ensures |form| == 3 + (if SendsPassword(password) then 1 else 0)
    ensures form[0] == FormField("file", FilePart(file))
    ensures form[1] == FormField("start_page", TextPart(IntToDecimal(startPage)))
    ensures form[2] == FormField("end_page", TextPart(IntToDecimal(endPage)))
    ensures ParseInt(form[1].value.text) == Int(startPage) && ParseInt(form[2].value.text) == Int(endPage)
    ensures SendsPassword(password) ==> form[3] == FormField("password", TextPart(password.value))
    ensures forall k :: 0 <= k < |form| ==> form[k].name in {"file", "start_page", "end_page", "password"}
  {
    var startText := IntToDecimal(startPage);
    var endText := IntToDecimal(endPage);
    ParseIntToString(startPage);
    ParseIntToString(endPage);
    form := [FormField("file", FilePart(file)),
             FormField("start_page", TextPart(startText)),
             FormField("end_page", TextPart(endText))];
    if SendsPassword(password) {
      form := form + [FormField("password", TextPart(password.value))];
    }
  }

}
