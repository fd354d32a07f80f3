/**
  * Browser values the three forms handle: the files a file input yields, the blobs a call
  * resolves with, the outcome of an awaited call, the download a form triggers and the toasts it
  * shows, plus the two string rules the forms share.
  */
module Browser {
  import opened Optional

  /** A `File` from a file input: its name, the MIME type the browser reports and its bytes. */
  datatype File = File(name: string, mimeType: string, content: seq<bv8>)

  const PdfMimeType: string := "application/pdf"

  /** The forms' client-side check `file.type === 'application/pdf'`. */
  predicate IsPdf(f: File)
  {
    f.mimeType == PdfMimeType
  }

  /** The binary payload a call resolves with. */
  datatype Blob = Blob(content: seq<bv8>)

  /** How an awaited call settles: with a value, or by throwing. */
  datatype Outcome<T> = Resolved(value: T) | Rejected

  /** A save the form triggers: the name given to the anchor's `download` attribute and the blob it points to. */
  datatype Download = Download(name: string, blob: Blob)

  datatype ToastKind = SuccessToast | ErrorToast

  /** One `toast.success(message)` or `toast.error(message)`. */
  datatype Toast = Toast(kind: ToastKind, message: string)

  /** `s.endsWith(suffix)`. */
  predicate EndsWith(s: string, suffix: string)
  {
    |suffix| <= |s| && s[|s| - |suffix|..] == suffix
  }

  /** The download-name rule `name.endsWith(ext) ? name : name + ext`. */
  function WithExtension(name: string, ext: string): (r: string)
    ensures EndsWith(r, ext)
    ensures EndsWith(name, ext) ==> r == name
    ensures !EndsWith(name, ext) ==> r == name + ext
  {
    if EndsWith(name, ext) then name else name + ext
  }

  /** Applying the download-name rule twice gives the same name as applying it once. */
  lemma WithExtensionIdempotent(name: string, ext: string)
    ensures WithExtension(WithExtension(name, ext), ext) == WithExtension(name, ext)
  {
  }

  /** `password || undefined`: the empty string becomes undefined, every other string is kept. */
  function OrUndefined(s: string): (r: Option<string>)
    ensures r.None? <==> s == ""
    ensures r.Some? ==> r.value == s
  {
    if s == "" then None else Some(s)
  }
}
